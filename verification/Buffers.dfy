/** The two packet buffers, of any kind of element, and the one interface they share. */
module Buffers {
  const OK := 0
  const REFUSED := -1

  /** The bytes of all parts, one after the other. */
  function Concat<T>(parts: seq<seq<T>>): seq<T>
    decreases |parts|
  {
    if parts == [] then [] else parts[0] + Concat(parts[1..])
  }

  lemma ConcatOnce<T>(parts: seq<seq<T>>)
    requires parts != []
    ensures Concat(parts) == parts[0] + Concat(parts[1..])
  {
  }

  lemma NothingConcatenated<T>(parts: seq<seq<T>>)
    requires parts == []
    ensures Concat(parts) == []
  {
  }

  /** A list that grows without limit. */
  class ListBuffer<T> {
    var buffer: seq<T>

    constructor ()
      ensures buffer == []
    {
      buffer := [];
    }

    method Append(data: seq<T>) returns (rst: int)
      modifies this
      ensures rst == OK && buffer == old(buffer) + data
    {
      var i := 0;
      while i < |data|
        invariant i <= |data| && buffer == old(buffer) + data[..i]
      {
        buffer := buffer + [data[i]];
        i := i + 1;
      }
      rst := OK;
    }

    method ReadBufferN(data: seq<T>, n: nat) returns (rst: int, out: seq<T>)
      ensures rst == (if n > |buffer| then REFUSED else OK)
      ensures out == if n > |buffer| then data else data + buffer[..n]
    {
      out := data;
      if n > |buffer| {
        return REFUSED, out;
      }
      var i := 0;
      while i < n
        invariant i <= n && out == data + buffer[..i]
      {
        out := out + [buffer[i]];
        i := i + 1;
      }
      rst := OK;
    }

    method ClearBufferN(n: nat) returns (rst: int)
      modifies this
      ensures rst == OK
      ensures buffer == if n > |old(buffer)| then [] else old(buffer)[n..]
    {
      var i := 0;
      while i < n
        invariant i <= n && i <= |old(buffer)| && buffer == old(buffer)[i..]
      {
        if buffer == [] {
          break;
        }
        buffer := buffer[1..];
        i := i + 1;
      }
      rst := OK;
    }

    method Clear() returns (rst: int)
      modifies this
      ensures rst == OK && buffer == []
    {
      buffer, rst := [], OK;
    }

    method ReadSize() returns (size: nat)
      ensures size == |buffer|
    {
      size := |buffer|;
    }
  }

  /** The index `n` places after `i` in a ring of `cap` slots. */
  function Advance(i: nat, n: nat, cap: nat): nat
  {
    if i + n >= cap then i + n - cap else i + n
  }

  /** How many bytes lie between the two positions of a ring. */
  function Gap(r: nat, w: nat, cap: nat): nat
    requires r < cap && w < cap
  {
    if w >= r then w - r else cap - r + w
  }

  /** The bytes of the ring `a` from the read position to the write position, across the wrap. */
  function Span<T>(a: seq<T>, r: nat, w: nat): (s: seq<T>)
    requires r < |a| && w < |a|
    ensures |s| == Gap(r, w, |a|) && forall k :: 0 <= k < |s| ==> s[k] == a[Advance(r, k, |a|)]
  {
    if w >= r then a[r..w] else a[r..] + a[..w]
  }

  lemma SpanDropped<T>(a: seq<T>, r: nat, w: nat, n: nat)
    requires r < |a| && w < |a| && n <= Gap(r, w, |a|)
    ensures Span(a, Advance(r, n, |a|), w) == Span(a, r, w)[n..]
  {
    hide Span;
    var s, t := Span(a, Advance(r, n, |a|), w), Span(a, r, w)[n..];
    assert |s| == |t| && forall k :: 0 <= k < |t| ==> s[k] == a[Advance(r, n + k, |a|)] == t[k];
  }

  /** Writing past the write position, with a slot left free, extends the span and touches nothing in it. */
  lemma SpanExtended<T>(a: seq<T>, b: seq<T>, r: nat, w: nat, data: seq<T>)
    requires r < |a| == |b| && w < |a| && Gap(r, w, |a|) + |data| < |a|
    requires forall k :: 0 <= k < |data| ==> b[Advance(w, k, |a|)] == data[k]
    requires forall k :: 0 <= k < Gap(r, w, |a|) ==> b[Advance(r, k, |a|)] == a[Advance(r, k, |a|)]
    ensures Span(b, r, Advance(w, |data|, |a|)) == Span(a, r, w) + data
  {
    var n, cap := Gap(r, w, |a|), |a|;
    GapGrows(r, w, |data|, cap);
    var s, t := Span(b, r, Advance(w, |data|, cap)), Span(a, r, w) + data;
    assert |s| == |t|;
    forall k | 0 <= k < |s| ensures s[k] == t[k] {
      if k >= n { GapGrows(r, w, k - n, cap); }
    }
  }

  lemma GapGrows(r: nat, w: nat, j: nat, cap: nat)
    requires r < cap && w < cap && Gap(r, w, cap) + j < cap
    ensures Advance(w, j, cap) < cap && Gap(r, Advance(w, j, cap), cap) == Gap(r, w, cap) + j
    ensures Advance(r, Gap(r, w, cap) + j, cap) == Advance(w, j, cap)
  {
  }

  /** A wrap-around ring; one slot stays free so that full and empty differ. */
  class CycleBuffer<T(0)> {
    const buffer: array<T>
    var writeIndex: nat
    var readIndex: nat

    ghost predicate Valid()
      reads this
    {
      writeIndex < buffer.Length && readIndex < buffer.Length
    }

    /** The bytes between the read and the write position, across the wrap. */
    ghost function Contents(): seq<T>
      requires Valid()
      reads this, buffer
    {
      Span(buffer[..], readIndex, writeIndex)
    }

    constructor (size: nat)
      requires size >= 1
      ensures Valid() && Contents() == [] && buffer.Length == size && fresh(buffer)
    {
      buffer := new T[size];
      writeIndex, readIndex := 0, 0;
    }

    method UsableSize() returns (usable: nat)
      requires Valid()
      ensures usable + |Contents()| == buffer.Length - 1
    {
      if writeIndex < readIndex {
        usable := readIndex - writeIndex - 1;
      } else {
        usable := buffer.Length + readIndex - writeIndex - 1;
      }
    }

    /** The free stretch up to the end of the array, and the one at its start. */
    method UsableSizeInfo() returns (size: nat, part1: nat, part2: nat)
      requires Valid()
      ensures size == part1 + part2 && size + |Contents()| == buffer.Length - 1
      ensures writeIndex + part1 <= buffer.Length
      ensures part2 > 0 ==> writeIndex >= readIndex && writeIndex + part1 == buffer.Length && part2 == readIndex - 1
      ensures writeIndex < readIndex ==> writeIndex + part1 < readIndex
    {
      if writeIndex < readIndex {
        part1 := readIndex - writeIndex - 1;
        part2 := 0;
      } else {
        var readIsZero := 0 == readIndex;
        part1 := if readIsZero then buffer.Length - writeIndex - 1 else buffer.Length - writeIndex;
        part2 := if readIsZero then 0 else readIndex - 1;
      }
      size := part1 + part2;
    }

    method ReadSizeInfo() returns (size: nat, part1: nat, part2: nat)
      requires Valid()
      ensures size == part1 + part2 == |Contents()|
      ensures readIndex + part1 <= buffer.Length
      ensures part2 > 0 ==> part1 == buffer.Length - readIndex && part2 == writeIndex < readIndex
      ensures part2 == 0 && part1 > 0 ==> Contents() == buffer[readIndex..readIndex + part1]
    {
      if writeIndex >= readIndex {
        part1 := writeIndex - readIndex;
        part2 := 0;
      } else {
        part1 := buffer.Length - readIndex;
        part2 := writeIndex;
      }
      size := part1 + part2;
      if part2 == 0 && part1 > 0 && writeIndex < readIndex {
        assert buffer[..0] == [];
      }
    }

    method ReadSize() returns (size: nat)
      requires Valid()
      ensures size == |Contents()|
    {
      var part1, part2;
      size, part1, part2 := ReadSizeInfo();
    }

    /** `std::copy` of `data` to the array, starting at `at`. */
    method CopyIn(data: seq<T>, at: nat)
      requires at + |data| <= buffer.Length
      modifies buffer
      ensures forall i :: 0 <= i < buffer.Length ==>
                buffer[i] == if at <= i < at + |data| then data[i - at] else old(buffer[i])
    {
      forall i | 0 <= i < |data| {
        buffer[at + i] := data[i];
      }
    }

    method AddWriteIndex(size: nat) returns (rst: int)
      requires Valid()
      modifies this`writeIndex
      ensures Valid() && rst == if size > buffer.Length then REFUSED else OK
      ensures writeIndex == if rst == OK then Advance(old(writeIndex), size, buffer.Length) else old(writeIndex)
    {
      if size > buffer.Length {
        return REFUSED;
      }
      writeIndex := writeIndex + size;
      if writeIndex >= buffer.Length {
        writeIndex := writeIndex - buffer.Length;
      }
      rst := OK;
    }

    method AddReadIndex(size: nat) returns (rst: int)
      requires Valid()
      modifies this`readIndex
      ensures Valid() && rst == if size > buffer.Length then REFUSED else OK
      ensures readIndex == if rst == OK then Advance(old(readIndex), size, buffer.Length) else old(readIndex)
    {
      if size > buffer.Length {
        return REFUSED;
      }
      readIndex := readIndex + size;
      if readIndex >= buffer.Length {
        readIndex := readIndex - buffer.Length;
      }
      rst := OK;
    }

    method Append(data: seq<T>) returns (rst: int)
      requires Valid()
      modifies this, buffer
      ensures Valid()
      ensures rst == if |old(Contents())| + |data| > buffer.Length - 1 then REFUSED else OK
      ensures Contents() == if rst == OK then old(Contents()) + data else old(Contents())
    {
      var size, part1, part2 := UsableSizeInfo();
      if size < |data| {
        return REFUSED;
      }
      if part1 >= |data| {
        CopyIn(data, writeIndex);
      } else {
        CopyIn(data[..part1], writeIndex);
        CopyIn(data[part1..], 0);
      }
      SpanExtended(old(buffer[..]), buffer[..], readIndex, writeIndex, data);
      rst := AddWriteIndex(|data|);
    }

    method ReadBufferN(data: seq<T>, n: nat) returns (rst: int, out: seq<T>)
      requires Valid()
      ensures rst == (if n > |Contents()| then REFUSED else OK)
      ensures out == if n > |Contents()| then data else data + Contents()[..n]
    {
      out := data;
      var size, part1, part2 := ReadSizeInfo();
      if n > size {
        return REFUSED, out;
      }
      if n <= part1 {
        out := out + buffer[readIndex..readIndex + n];
      } else {
        var remain := n - part1;
        out := out + buffer[readIndex..] + buffer[..remain];
      }
      rst := OK;
    }

    method ClearBufferN(n: nat) returns (rst: int)
      requires Valid()
      modifies this`readIndex
      ensures Valid() && rst == OK
      ensures Contents() == if n > |old(Contents())| then [] else old(Contents())[n..]
    {
      var size := ReadSize();
      SpanDropped(buffer[..], readIndex, writeIndex, if n > size then size else n);
      rst := AddReadIndex(if n > size then size else n);
    }

    method Clear() returns (rst: int)
      requires buffer.Length >= 1
      modifies this
      ensures Valid() && Contents() == [] && rst == OK
    {
      writeIndex, readIndex, rst := 0, 0, OK;
    }
  }

  /** The abstract buffer: whichever of the two a connection was given. */
  datatype PacketBuffer<T(0)> = List(list: ListBuffer<T>) | Cycle(ring: CycleBuffer<T>) {
    ghost function Objects(): set<object> {
      if List? then {list} else {ring, ring.buffer}
    }

    ghost predicate Valid()
      reads Objects()
    {
      Cycle? ==> ring.Valid()
    }

    ghost function Contents(): seq<T>
      requires Valid()
      reads Objects()
    {
      if List? then list.buffer else ring.Contents()
    }

    /** Whether `more` further bytes fit. */
    ghost predicate Fits(more: nat)
      requires Valid()
      reads Objects()
    {
      List? || |Contents()| + more < ring.buffer.Length
    }

    method Append(data: seq<T>) returns (rst: int)
      requires Valid()
      modifies Objects()
      ensures Valid() && rst == if old(Fits(|data|)) then OK else REFUSED
      ensures Contents() == if rst == OK then old(Contents()) + data else old(Contents())
    {
      match this
      case List(list) => rst := list.Append(data);
      case Cycle(ring) => rst := ring.Append(data);
    }

    method ReadBufferN(data: seq<T>, n: nat) returns (rst: int, out: seq<T>)
      requires Valid()
      ensures rst == (if n > |Contents()| then REFUSED else OK)
      ensures out == if n > |Contents()| then data else data + Contents()[..n]
    {
      match this
      case List(list) => rst, out := list.ReadBufferN(data, n);
      case Cycle(ring) => rst, out := ring.ReadBufferN(data, n);
    }

    method ClearBufferN(n: nat) returns (rst: int)
      requires Valid()
      modifies Objects()
      ensures Valid() && rst == OK
      ensures Contents() == if n > |old(Contents())| then [] else old(Contents())[n..]
    {
      match this
      case List(list) => rst := list.ClearBufferN(n);
      case Cycle(ring) => rst := ring.ClearBufferN(n);
    }

    method Clear() returns (rst: int)
      requires Valid()
      modifies Objects()
      ensures Valid() && rst == OK && Contents() == []
    {
      match this
      case List(list) => rst := list.Clear();
      case Cycle(ring) => rst := ring.Clear();
    }

    method ReadSize() returns (size: nat)
      requires Valid()
      ensures size == |Contents()|
    {
      match this
      case List(list) => size := list.ReadSize();
      case Cycle(ring) => size := ring.ReadSize();
    }
  }

  // ----- The two buffers side by side -----

  datatype Operation<T> = AppendData(data: seq<T>) | ReadN(n: nat) | ClearN(n: nat) | ClearAll | AskSize

  /** What a caller sees of one operation. */
  datatype Seen<T> = Status(rst: int) | Data(rst: int, out: seq<T>) | Size(size: nat)

  /** A queue of at most `room` bytes, or of any number when `room` is negative. */
  function Queue<T>(q: seq<T>, op: Operation<T>, room: int): (seq<T>, Seen<T>) {
    match op
    case AppendData(data) =>
      if 0 <= room < |q| + |data| then (q, Status(REFUSED)) else (q + data, Status(OK))
    case ReadN(n) => if n > |q| then (q, Data(REFUSED, [])) else (q, Data(OK, q[..n]))
    case ClearN(n) => (if n > |q| then [] else q[n..], Status(OK))
    case ClearAll => ([], Status(OK))
    case AskSize => (q, Size(|q|))
  }

  function Trace<T>(q: seq<T>, ops: seq<Operation<T>>, room: int): seq<Seen<T>>
    decreases |ops|
  {
    if ops == [] then [] else [Queue(q, ops[0], room).1] + Trace(Queue(q, ops[0], room).0, ops[1..], room)
  }

  /** The ring is told from the list only by a refused append. */
  lemma {:induction false} SameUnlessRefused<T>(q: seq<T>, ops: seq<Operation<T>>, room: nat)
    requires Status(REFUSED) !in Trace(q, ops, room)
    ensures Trace(q, ops, room) == Trace(q, ops, -1)
    decreases |ops|
  {
    if ops != [] {
      SameUnlessRefused(Queue(q, ops[0], room).0, ops[1..], room);
    }
  }

  /** Both buffers are such queues: the ring of one byte less than its array, the list of any number. */
  method Perform<T(0)>(b: PacketBuffer<T>, op: Operation<T>) returns (seen: Seen<T>)
    requires b.Valid()
    modifies b.Objects()
    ensures b.Valid()
    ensures (b.Contents(), seen) == Queue(old(b.Contents()), op, if b.List? then -1 else b.ring.buffer.Length - 1)
  {
    match op
    case AppendData(data) =>
      var rst := b.Append(data);
      seen := Status(rst);
    case ReadN(n) =>
      var rst, out := b.ReadBufferN([], n);
      seen := Data(rst, out);
      assert rst == OK ==> out == b.Contents()[..n];
    case ClearN(n) =>
      var rst := b.ClearBufferN(n);
      seen := Status(rst);
    case ClearAll =>
      var rst := b.Clear();
      seen := Status(rst);
    case AskSize =>
      var size := b.ReadSize();
      seen := Size(size);
  }
}
