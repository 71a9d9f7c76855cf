/** The network buffer of my_muduo (my_muduo/source/Buffer.hpp): a window of readable
    bytes that slides through one block, which is compacted or grown when a write
    does not fit behind it. It is a queue of bytes. */
module SlidingBuffer {
  import opened Prelude
  import HttpText

  const DEFAULT_SIZE_BUFFER: nat := 1024

  /** The block and the two indices. */
  datatype Window = Window(data: seq<char>, writeIdx: nat, readIdx: nat) {
    ghost predicate Valid() { readIdx <= writeIdx <= |data| }

    function Readable(): seq<char>
      requires Valid()
    {
      data[readIdx..writeIdx]
    }

    /** EnsureWriteSpace: enough room, room after compaction, or growth. The first
        test is strict, so an exact fit is compacted. */
    function WithRoom(len: nat): Window
      requires Valid()
    {
      var size := writeIdx - readIdx;
      if writeIdx + len < |data| then this
      else if |data| - writeIdx + readIdx >= len then
        Window(data[readIdx..writeIdx] + data[size..], size, 0)
      else
        this.(data := data + Repeat('\0', writeIdx + len - |data|))
    }

    /** Write: the bytes are stored behind the window, which does not move yet. */
    function Stored(d: seq<char>): Window
      requires Valid()
    {
      if d == [] then this else
      var b := WithRoom(|d|);
      RoomIsMade(this, |d|);
      b.(data := b.data[..b.writeIdx] + d + b.data[b.writeIdx + |d|..])
    }

    /** WriteAndPush */
    function Pushed(d: seq<char>): Window
      requires Valid()
    {
      var b := Stored(d);
      b.(writeIdx := b.writeIdx + |d|)
    }

    function Popped(len: nat): Window { this.(readIdx := readIdx + len) }

    /** The readable bytes are still at their place, unmoved, when room for as many
        has been made. */
    predicate SelfWritable()
      requires Valid()
    {
      var n := writeIdx - readIdx;
      || n == 0 || writeIdx + n < |data|
      || (|data| - writeIdx + readIdx >= n && (readIdx == 0 || readIdx >= n))
    }
  }

  /** EnsureWriteSpace keeps the readable bytes and makes the room asked for. The
      block grows only if the bytes would not fit anyhow, and then to less than
      twice what is written beyond what is readable. */
  lemma RoomIsMade(b: Window, len: nat)
    requires b.Valid()
    ensures b.WithRoom(len).Valid() && b.WithRoom(len).Readable() == b.Readable()
    ensures b.WithRoom(len).writeIdx + len <= |b.WithRoom(len).data|
    ensures |b.WithRoom(len).data| > |b.data| <==> |b.Readable()| + len > |b.data|
    ensures |b.WithRoom(len).data| > |b.data| ==> |b.WithRoom(len).data| <= |b.Readable()| + 2 * len - 1
    ensures |b.WithRoom(len).data| >= |b.data|
  {
  }

  /** Where a buffer can be written to itself, the bytes at the old place are still the
      readable ones when room has been made, and none is overwritten before it is read. */
  lemma RoomKeepsSource(b: Window)
    requires b.Valid() && b.SelfWritable() && b.writeIdx > b.readIdx
    ensures var n, m := b.writeIdx - b.readIdx, b.WithRoom(b.writeIdx - b.readIdx);
      && b.readIdx + n <= |m.data| && m.data[b.readIdx..b.readIdx + n] == b.Readable()
      && (b.readIdx + n <= m.writeIdx || m.writeIdx <= b.readIdx)
  {
  }

  /** Readable bytes that compaction moves by less than their number overwrite their old
      place: the bytes there are still the readable ones if and only if these repeat with
      the distance moved as period. */
  lemma MovedSource(b: Window)
    requires b.Valid() && 0 < b.readIdx < b.writeIdx - b.readIdx
    requires var n := b.writeIdx - b.readIdx; b.writeIdx + n >= |b.data| && |b.data| - b.writeIdx + b.readIdx >= n
    ensures var n, r, q := b.writeIdx - b.readIdx, b.readIdx, b.Readable();
      b.WithRoom(n).data[r..r + n] == q <==> forall i :: 0 <= i < n - r ==> q[i] == q[i + r]
  {
    var n, r, q := b.writeIdx - b.readIdx, b.readIdx, b.Readable();
    var moved := b.WithRoom(n).data[r..r + n];
    forall i | 0 <= i < n ensures moved[i] == if i < n - r then q[i + r] else q[i] {
    }
    if moved == q {
      forall i | 0 <= i < n - r ensures q[i] == q[i + r] {
        assert moved[i] == q[i + r];
      }
    }
    if forall i :: 0 <= i < n - r ==> q[i] == q[i + r] {
      assert moved == q;
    }
  }

  lemma StoredIs(b: Window, d: seq<char>, m: Window)
    requires b.Valid() && d != [] && m == b.WithRoom(|d|)
    ensures m.writeIdx + |d| <= |m.data|
    ensures b.Stored(d) == m.(data := m.data[..m.writeIdx] + d + m.data[m.writeIdx + |d|..])
  {
    RoomIsMade(b, |d|);
  }

  /** WriteAndPush appends to the readable bytes. */
  lemma PushAppends(b: Window, d: seq<char>)
    requires b.Valid()
    ensures b.Pushed(d).Valid() && b.Pushed(d).Readable() == b.Readable() + d
    ensures |b.data| <= |b.Pushed(d).data| <= Max(|b.data|, |b.Readable()| + 2 * |d| - 1)
  {
  }

  // ----- lines

  /** How many bytes the first line has, with its line feed; 0 without a line feed. */
  function LineLength(q: seq<char>): nat {
    if q == [] then 0
    else if q[0] == '\n' then 1
    else if LineLength(q[1..]) == 0 then 0
    else 1 + LineLength(q[1..])
  }

  /** A line ends at the first line feed; there is none only without a line feed. */
  lemma {:induction false} LineEnds(q: seq<char>)
    ensures LineLength(q) <= |q|
    ensures LineLength(q) == 0 <==> '\n' !in q
    ensures LineLength(q) > 0 ==> q[LineLength(q) - 1] == '\n' && '\n' !in q[..LineLength(q) - 1]
  {
    if q != [] {
      LineEnds(q[1..]);
      assert q == [q[0]] + q[1..];
      var n := LineLength(q[1..]);
      if q[0] != '\n' && n > 0 {
        assert q[..n] == [q[0]] + q[1..][..n - 1];
      }
    }
  }

  lemma {:induction false} LineFound(q: seq<char>, k: nat)
    requires k <= |q| && '\n' !in q[..k]
    ensures LineLength(q) == 0 || LineLength(q) > k
    ensures k < |q| && q[k] == '\n' ==> LineLength(q) == k + 1
    ensures k == |q| ==> LineLength(q) == 0
  {
    if k > 0 {
      assert q[..k] == [q[0]] + q[1..][..k - 1];
      assert q[0] == q[..k][0];
      LineFound(q[1..], k - 1);
    }
  }

  // ----- whole runs

  datatype Op = Push(bytes: seq<char>) | Reserve(len: nat) | Pop(len: nat) | PopLine | Clear

  datatype Outcome<T> = Outcome(state: T, out: seq<char>)

  /** One call on the buffer; None if an assertion of it fails. */
  function Call(b: Window, op: Op): Option<Outcome<Window>>
    requires b.Valid()
  {
    match op
    case Push(d) => Some(Outcome(b.Pushed(d), []))
    case Reserve(len) => Some(Outcome(b.WithRoom(len), []))
    case Pop(len) =>
      if len <= |b.Readable()| then Some(Outcome(b.Popped(len), b.Readable()[..len])) else None
    case PopLine =>
      LineEnds(b.Readable());
      var len := LineLength(b.Readable());
      Some(Outcome(b.Popped(len), b.Readable()[..len]))
    case Clear => Some(Outcome(Window(b.data, 0, 0), []))
  }

  /** The same call on a plain queue of bytes. */
  function QueueCall(q: seq<char>, op: Op): Option<Outcome<seq<char>>> {
    match op
    case Push(d) => Some(Outcome(q + d, []))
    case Reserve(_) => Some(Outcome(q, []))
    case Pop(len) => if len <= |q| then Some(Outcome(q[len..], q[..len])) else None
    case PopLine => LineEnds(q); Some(Outcome(q[LineLength(q)..], q[..LineLength(q)]))
    case Clear => Some(Outcome([], []))
  }

  /** One call keeps the buffer in step with the queue. */
  lemma CallRefines(b: Window, op: Op)
    requires b.Valid()
    ensures Call(b, op).Some? <==> QueueCall(b.Readable(), op).Some?
    ensures Call(b, op).Some? ==>
      && Call(b, op).value.state.Valid()
      && Call(b, op).value.state.Readable() == QueueCall(b.Readable(), op).value.state
      && Call(b, op).value.out == QueueCall(b.Readable(), op).value.out
      && |Call(b, op).value.state.data| <= Max(|b.data|, Need(b.Readable(), op))
  {
    LineEnds(b.Readable());
    match op
    case Push(d) => PushAppends(b, d);
    case Reserve(len) => RoomIsMade(b, len);
    case _ =>
  }

  /** What a call may make the block grow to. */
  function Need(q: seq<char>, op: Op): int {
    match op
    case Push(d) => |q| + 2 * |d| - 1
    case Reserve(len) => |q| + 2 * len - 1
    case _ => 0
  }

  /** The answers of all calls, up to a failing assertion, and the last state. */
  function Run(b: Window, ops: seq<Op>): (Window, seq<seq<char>>)
    requires b.Valid()
    decreases |ops|
  {
    if ops == [] then (b, []) else
    var next := Call(b, ops[0]);
    if next.None? then (b, []) else
    CallRefines(b, ops[0]);
    var rest := Run(next.value.state, ops[1..]);
    (rest.0, [next.value.out] + rest.1)
  }

  function QueueRun(q: seq<char>, ops: seq<Op>): (seq<char>, seq<seq<char>>)
    decreases |ops|
  {
    if ops == [] then (q, []) else
    var next := QueueCall(q, ops[0]);
    if next.None? then (q, []) else
    var rest := QueueRun(next.value.state, ops[1..]);
    (rest.0, [next.value.out] + rest.1)
  }

  /** The largest need of a run, which the plain queue alone determines. */
  function RunNeed(q: seq<char>, ops: seq<Op>): int
    decreases |ops|
  {
    if ops == [] then 0 else
    var next := QueueCall(q, ops[0]);
    if next.None? then 0 else Max(Need(q, ops[0]), RunNeed(next.value.state, ops[1..]))
  }

  /** Whatever is called, the buffer answers like the queue, and its block stays
      within what the largest write needed. */
  lemma {:induction false} RunRefines(b: Window, ops: seq<Op>)
    requires b.Valid()
    ensures Run(b, ops).0.Valid()
    ensures (Run(b, ops).0.Readable(), Run(b, ops).1) == QueueRun(b.Readable(), ops)
    ensures |Run(b, ops).0.data| <= Max(|b.data|, RunNeed(b.Readable(), ops))
    decreases |ops|
  {
    if ops != [] {
      CallRefines(b, ops[0]);
      var next := Call(b, ops[0]);
      if next.Some? {
        RunRefines(next.value.state, ops[1..]);
      }
    }
  }

  /** The bytes pushed by the calls that are reached. */
  function AllPushed(q: seq<char>, ops: seq<Op>): seq<char>
    decreases |ops|
  {
    if ops == [] then [] else
    var next := QueueCall(q, ops[0]);
    if next.None? then [] else
    (if ops[0].Push? then ops[0].bytes else []) + AllPushed(next.value.state, ops[1..])
  }

  ghost predicate NoClear(ops: seq<Op>) { forall i :: 0 <= i < |ops| ==> ops[i] != Clear }

  /** From a new buffer, what was popped followed by what is still readable is what
      was pushed, unless the buffer is cleared. */
  lemma FirstInFirstOut(ops: seq<Op>)
    requires NoClear(ops)
    ensures var (b, outs) := Run(NewWindow(), ops);
      b.Valid() && HttpText.Concat(outs) + b.Readable() == AllPushed([], ops)
      && |b.data| <= Max(DEFAULT_SIZE_BUFFER, RunNeed([], ops))
  {
    RunRefines(NewWindow(), ops);
    QueueConserves([], ops);
  }

  function NewWindow(): Window { Window(Repeat('\0', DEFAULT_SIZE_BUFFER), 0, 0) }

  lemma {:induction false} QueueConserves(q: seq<char>, ops: seq<Op>)
    requires NoClear(ops)
    ensures HttpText.Concat(QueueRun(q, ops).1) + QueueRun(q, ops).0 == q + AllPushed(q, ops)
    decreases |ops|
  {
    if ops != [] {
      var next := QueueCall(q, ops[0]);
      if next.Some? {
        var rest := ops[1..];
        QueueConserves(next.value.state, rest);
        var pushed := if ops[0].Push? then ops[0].bytes else [];
        assert ops[0] != Clear;
        CallConserves(q, ops[0]);
        var tail := QueueRun(next.value.state, rest);
        Regroup(next.value.out, HttpText.Concat(tail.1), tail.0, next.value.state, AllPushed(next.value.state, rest), q, pushed);
        assert ([next.value.out] + tail.1)[1..] == tail.1;
      }
    }
  }

  lemma CallConserves(q: seq<char>, op: Op)
    requires op != Clear && QueueCall(q, op).Some?
    ensures var next := QueueCall(q, op).value; next.out + next.state == q + if op.Push? then op.bytes else []
  {
    LineEnds(q);
  }

  lemma Regroup(out: seq<char>, outs: seq<char>, last: seq<char>, state: seq<char>, more: seq<char>, q: seq<char>, d: seq<char>)
    requires out + state == q + d && outs + last == state + more
    ensures (out + outs) + last == q + (d + more)
  {
    assert (out + outs) + last == out + (outs + last);
    assert out + (state + more) == (out + state) + more;
  }

  // ----- the class

  class Buffer {
    var buffer: array<char>
    var writeIdx: nat
    var readIdx: nat

    ghost predicate Valid()
      reads this
    {
      readIdx <= writeIdx <= buffer.Length
    }

    ghost function Abs(): (b: Window)
      reads this, buffer
      ensures Valid() ==> b.Valid()
    {
      Window(buffer[..], writeIdx, readIdx)
    }

    constructor ()
      ensures Valid() && fresh(buffer)
      ensures Abs() == NewWindow()
    {
      buffer := new char[DEFAULT_SIZE_BUFFER](_ => 0 as char);
      writeIdx := 0;
      readIdx := 0;
      new;
      assert buffer[..] == Repeat('\0', DEFAULT_SIZE_BUFFER);
    }

    method MoveReadOffset(len: nat)
      requires Valid() && len <= |Abs().Readable()|
      modifies this`readIdx
      ensures Valid() && Abs() == old(Abs()).Popped(len)
    {
      if len == 0 { return; }
      readIdx := readIdx + len;
    }

    method MoveWriteOffset(len: nat)
      requires Valid() && writeIdx + len <= buffer.Length
      modifies this`writeIdx
      ensures Valid() && Abs() == old(Abs()).(writeIdx := old(writeIdx) + len)
    {
      writeIdx := writeIdx + len;
    }

    method EnsureWriteSpace(len: nat)
      requires Valid()
      modifies this, buffer
      ensures Valid() && (buffer == old(buffer) || fresh(buffer))
      ensures Abs() == old(Abs()).WithRoom(len)
    {
      RoomIsMade(Abs(), len);
      if writeIdx + len < buffer.Length {
        return;
      } else if buffer.Length - writeIdx + readIdx >= len {
        MoveToFront();
      } else {
        Resize(writeIdx + len);
      }
    }

    /** The copy of the readable bytes to the front of the block. */
    method MoveToFront()
      requires Valid()
      modifies this, buffer
      ensures Valid() && buffer == old(buffer) && readIdx == 0
      ensures writeIdx == old(writeIdx - readIdx)
      ensures buffer[..] == old(buffer[readIdx..writeIdx]) + old(buffer[writeIdx - readIdx..])
    {
      var size := writeIdx - readIdx;
      for i := 0 to size
        modifies buffer
        invariant buffer[..i] == old(buffer[readIdx..readIdx + i])
        invariant buffer[i..] == old(buffer[i..])
      {
        assert buffer[i..][readIdx] == old(buffer[i..])[readIdx];
        buffer[i] := buffer[readIdx + i];
        assert buffer[..i + 1] == buffer[..i] + [buffer[i]];
        assert buffer[i + 1..] == old(buffer[i..])[1..];
      }
      readIdx := 0;
      writeIdx := size;
      assert buffer[..] == buffer[..size] + buffer[size..];
    }

    /** vector::resize to a larger size. */
    method Resize(size: nat)
      requires Valid() && size >= buffer.Length
      modifies this`buffer
      ensures Valid() && fresh(buffer)
      ensures buffer[..] == old(buffer[..]) + Repeat('\0', size - old(buffer.Length))
    {
      var n := buffer.Length;
      var grown := new char[size](_ => 0 as char);
      for i := 0 to n
        modifies grown
        invariant grown[..i] == buffer[..i]
        invariant forall k :: n <= k < size ==> grown[k] == 0 as char
      {
        grown[i] := buffer[i];
        assert grown[..i + 1] == grown[..i] + [grown[i]];
      }
      assert grown[..] == grown[..n] + grown[n..];
      assert grown[n..] == Repeat('\0', size - n);
      assert buffer[..n] == buffer[..];
      buffer := grown;
    }

    method Write(data: seq<char>)
      requires Valid()
      modifies this, buffer
      ensures Valid() && (buffer == old(buffer) || fresh(buffer))
      ensures Abs() == old(Abs()).Stored(data)
      ensures writeIdx + |data| <= buffer.Length
      ensures Abs().Readable() == old(Abs().Readable())
    {
      if |data| == 0 { return; }
      RoomIsMade(Abs(), |data|);
      EnsureWriteSpace(|data|);
      CopyBehind(data);
      KeepsFront(old(Abs()).WithRoom(|data|).data, buffer[..], readIdx, writeIdx);
    }

    method CopyBehind(data: seq<char>)
      requires Valid() && writeIdx + |data| <= buffer.Length
      modifies buffer
      ensures buffer[..writeIdx] == old(buffer[..writeIdx])
      ensures buffer[..] == old(buffer[..writeIdx]) + data + old(buffer[writeIdx + |data|..])
    {
      for i := 0 to |data|
        invariant forall k :: 0 <= k < writeIdx ==> buffer[k] == old(buffer[k])
        invariant forall k :: 0 <= k < i ==> buffer[writeIdx + k] == data[k]
        invariant forall k :: writeIdx + i <= k < buffer.Length ==> buffer[k] == old(buffer[k])
      {
        buffer[writeIdx + i] := data[i];
      }
    }

    /** WriteAndPush, and WriteAndPushString. */
    method WriteAndPush(data: seq<char>)
      requires Valid()
      modifies this, buffer
      ensures Valid() && (buffer == old(buffer) || fresh(buffer))
      ensures Abs() == old(Abs()).Pushed(data)
      ensures Abs().Readable() == old(Abs().Readable()) + data
    {
      PushAppends(Abs(), data);
      Write(data);
      MoveWriteOffset(|data|);
    }

    /** WriteAndPushBuffer, from another buffer, which keeps its bytes. */
    method WriteAndPushBuffer(buf: Buffer)
      requires Valid() && buf.Valid() && buf != this && buf.buffer != buffer
      modifies this, buffer
      ensures Valid() && (buffer == old(buffer) || fresh(buffer))
      ensures Abs() == old(Abs()).Pushed(buf.Abs().Readable())
      ensures buf.Valid() && buf.Abs() == old(buf.Abs())
    {
      PushAppends(Abs(), buf.Abs().Readable());
      Write(buf.buffer[buf.readIdx..buf.writeIdx]);
      MoveWriteOffset(buf.writeIdx - buf.readIdx);
    }

    /** WriteAndPushBuffer with the buffer itself: the source takes the position of its
        readable bytes first and makes room then. Not ok where that position is stale:
        in a block that was freed, or among bytes that were moved away. */
    method WriteAndPushSelf() returns (ok: bool)
      requires Valid()
      modifies this, buffer
      ensures Valid() && (buffer == old(buffer) || fresh(buffer))
      ensures ok == old(Abs()).SelfWritable()
      ensures ok ==> Abs() == old(Abs()).Pushed(old(Abs().Readable()))
      ensures ok ==> Abs().Readable() == old(Abs().Readable()) + old(Abs().Readable())
      ensures !ok ==> Abs() == old(Abs())
    {
      var n := writeIdx - readIdx;
      if n == 0 { return true; }
      var fits := writeIdx + n < buffer.Length;
      if !fits && (buffer.Length - writeIdx + readIdx < n || 0 < readIdx < n) { return false; }
      PushAppends(Abs(), Abs().Readable());
      StoreSelf(n);
      MoveWriteOffset(n);
      return true;
    }

    method StoreSelf(n: nat)
      requires Valid() && n == writeIdx - readIdx > 0 && Abs().SelfWritable()
      modifies this, buffer
      ensures Valid() && (buffer == old(buffer) || fresh(buffer))
      ensures Abs() == old(Abs()).Stored(old(Abs().Readable()))
      ensures writeIdx + n <= buffer.Length
    {
      ghost var q, room := Abs().Readable(), Abs().WithRoom(n);
      RoomKeepsSource(Abs());
      StoredIs(Abs(), q, room);
      var from := readIdx;
      EnsureWriteSpace(n);
      CopyWithin(from, n, room.data, q);
    }

    /** The copy of n bytes from one place of the block to behind the window. */
    method CopyWithin(from: nat, n: nat, ghost data: seq<char>, ghost q: seq<char>)
      requires Valid() && writeIdx + n <= buffer.Length && from + n <= buffer.Length
      requires buffer[..] == data && data[from..from + n] == q && (from + n <= writeIdx || writeIdx <= from)
      modifies buffer
      ensures buffer[..] == data[..writeIdx] + q + data[writeIdx + n..]
    {
      for i := 0 to n
        invariant forall k :: 0 <= k < writeIdx ==> buffer[k] == data[k]
        invariant forall k :: 0 <= k < i ==> buffer[writeIdx + k] == q[k]
        invariant forall k :: i <= k < n ==> buffer[from + k] == q[k]
        invariant forall k :: writeIdx + i <= k < buffer.Length ==> buffer[k] == data[k]
      {
        buffer[writeIdx + i] := buffer[from + i];
      }
    }

    method Read(to: array<char>, len: nat)
      requires Valid() && len <= |Abs().Readable()| && len <= to.Length && to != buffer
      modifies to
      ensures to[..len] == Abs().Readable()[..len] && to[len..] == old(to[len..])
    {
      for i := 0 to len
        invariant to[..i] == Abs().Readable()[..i]
        invariant to[len..] == old(to[len..])
      {
        to[i] := buffer[readIdx + i];
        assert to[..i + 1] == to[..i] + [to[i]];
        assert to[len..] == old(to[len..]);
      }
    }

    method ReadAndPop(to: array<char>, len: nat)
      requires Valid() && len <= |Abs().Readable()| && len <= to.Length && to != buffer
      modifies this`readIdx, to
      ensures Valid() && Call(old(Abs()), Pop(len)) == Some(Outcome(Abs(), to[..len]))
    {
      Read(to, len);
      MoveReadOffset(len);
    }

    method ReadAsString(len: nat) returns (str: seq<char>)
      requires Valid() && len <= |Abs().Readable()|
      ensures str == Abs().Readable()[..len]
    {
      HttpText.SliceOfSlice(buffer[..], readIdx, writeIdx, 0, len);
      str := buffer[readIdx..readIdx + len];
    }

    method ReadAsStringAndPop(len: nat) returns (str: seq<char>)
      requires Valid() && len <= |Abs().Readable()|
      modifies this`readIdx
      ensures Valid() && Call(old(Abs()), Pop(len)) == Some(Outcome(Abs(), str))
    {
      str := ReadAsString(len);
      MoveReadOffset(len);
    }

    /** FindCRLF: where the first line feed is, counted from the read position. */
    method FindCRLF() returns (res: Option<nat>)
      requires Valid()
      ensures LineLength(Abs().Readable()) == if res.None? then 0 else res.value + 1
    {
      ghost var q := Abs().Readable();
      assert q[..0] == [];
      for i := 0 to writeIdx - readIdx
        invariant '\n' !in q[..i]
      {
        if buffer[readIdx + i] == '\n' {
          LineFound(q, i);
          return Some(i);
        }
        assert q[..i + 1] == q[..i] + [q[i]];
      }
      LineFound(q, |q|);
      return None;
    }

    method GetLine() returns (str: seq<char>)
      requires Valid()
      ensures LineLength(Abs().Readable()) <= |Abs().Readable()|
      ensures str == Abs().Readable()[..LineLength(Abs().Readable())]
    {
      LineEnds(Abs().Readable());
      var res := FindCRLF();
      if res.None? { return ""; }
      str := ReadAsString(res.value + 1);
    }

    method GetLineAndPop() returns (str: seq<char>)
      requires Valid()
      modifies this`readIdx
      ensures Valid() && Call(old(Abs()), PopLine) == Some(Outcome(Abs(), str))
    {
      LineEnds(Abs().Readable());
      str := GetLine();
      MoveReadOffset(|str|);
    }

    method Clear()
      modifies this`writeIdx, this`readIdx
      ensures Valid() && Abs() == Window(buffer[..], 0, 0)
    {
      writeIdx := 0;
      readIdx := 0;
    }
  }

  lemma KeepsFront(a: seq<char>, b: seq<char>, r: nat, w: nat)
    requires r <= w <= |a| && w <= |b| && a[..w] == b[..w]
    ensures a[r..w] == b[r..w]
  {
  }
}
