/**
 The byte streams of httplib (Httplib/httplib.h): the buffered socket reader, the
 line reader on top of it, and writing everything through partial writes.  What
 the socket does is an oracle: any sequence of answers is allowed.
 */
module Streams {
  import opened Prelude
  import opened HttpText

  const SSIZE_MAX: nat := 0x7fff_ffff_ffff_ffff
  const READ_BUFF_SIZE: nat := 4096

  /** What the socket does when it is asked for bytes. */
  datatype Answer =
    | NotReady         // the poll times out
    | Error            // recv fails
    | Deliver(n: nat)  // recv hands over n bytes, at least one, as far as there are any

  /** The bytes that one recv hands over. */
  function Received(wire: string, n: nat, max: nat): (r: string)
    requires max > 0
    ensures r <= wire && |r| <= max
    ensures r == "" <==> wire == ""
  {
    var want := if n == 0 then 1 else n;
    var most := if want < max then want else max;
    wire[..if most < |wire| then most else |wire|]
  }

  /** Any number of bytes, as many as were asked for, may come at a time. */
  lemma ReceivedMeans(wire: string, k: nat, max: nat)
    requires 1 <= k <= max && k <= |wire|
    ensures Received(wire, k, max) == wire[..k]
  {
  }

  class SocketStream {
    const answers: nat -> Answer
    var calls: nat
    var wire: string           // sent by the peer, not received yet
    var buff: string
    var off: nat
    var contentSize: nat
    ghost var received: string
    ghost var delivered: string

    /** Buffering is transparent: what was delivered and what is buffered is what
        was received. */
    ghost predicate Valid()
      reads this
    {
      && |buff| == READ_BUFF_SIZE && off <= contentSize <= READ_BUFF_SIZE
      && received == delivered + buff[off..contentSize]
    }

    /** The bytes that reads are still to deliver. */
    ghost function Rest(): string
      reads this
      requires Valid()
    {
      buff[off..contentSize] + wire
    }

    constructor (answers: nat -> Answer, wire: string)
      ensures Valid() && Rest() == wire && this.answers == answers && received == ""
    {
      this.answers := answers;
      calls, this.wire, off, contentSize := 0, wire, 0, 0;
      buff := seq(READ_BUFF_SIZE, _ => '\0');
      received, delivered := "", "";
    }

    /** recv: the bytes handed over, or an error. */
    method ReadSocket(max: nat) returns (n: int, data: string)
      requires max > 0
      modifies this`calls, this`wire, this`received
      ensures calls == old(calls) + 1
      ensures n < 0 ==> data == "" && wire == old(wire)
      ensures n >= 0 ==> n == |data| <= max && data + wire == old(wire)
      ensures n == 0 ==> old(wire) == ""
      ensures received == old(received) + data
      ensures answers(old(calls)).Deliver? ==> n >= 0 && data == Received(old(wire), answers(old(calls)).n, max)
    {
      var answer := answers(calls);
      calls := calls + 1;
      if !answer.Deliver? { return -1, ""; }
      data := Received(wire, answer.n, max);
      wire := wire[|data|..];
      received := received + data;
      n := |data|;
    }

    /** read, from what is buffered. */
    method ReadBuffered(size: nat) returns (n: nat, data: string)
      requires Valid() && off < contentSize
      modifies this`off, this`delivered
      ensures Valid() && n == |data| <= size && (n == 0 ==> size == 0)
      ensures data + Rest() == old(Rest()) && delivered == old(delivered) + data
    {
      var remaining := contentSize - off;
      n := if size <= remaining then size else remaining;
      data := buff[off..off + n];
      assert buff[off..contentSize] == data + buff[off + n..contentSize];
      AppendAssoc(delivered, data, buff[off + n..contentSize]);
      AppendAssoc(data, buff[off + n..contentSize], wire);
      off := off + n;
      delivered := delivered + data;
    }

    /** read, through the buffer: what was asked for is delivered, the rest of what
        came is kept. */
    method ReadThrough(size: nat) returns (n: int, data: string)
      requires Valid() && off == contentSize == 0
      modifies this`calls, this`wire, this`received, this`buff, this`off, this`contentSize, this`delivered
      ensures Valid() && calls > old(calls)
      ensures n < 0 ==> data == "" && Rest() == old(Rest())
      ensures n >= 0 ==> n == |data| <= size && data + Rest() == old(Rest())
      ensures n == 0 && size > 0 ==> old(Rest()) == ""
      ensures delivered == old(delivered) + data && old(received) <= received
      ensures answers(old(calls)).Deliver? ==> n >= 0
    {
      var got;
      n, got := ReadSocket(READ_BUFF_SIZE);
      if n <= 0 { return n, ""; }
      buff := got + buff[n..];
      contentSize := n;
      assert buff[0..n] == got;
      var k;
      k, data := ReadBuffered(size);
      if k == n {
        assert buff[off..contentSize] == "";
        off, contentSize := 0, 0;
      }
      n := k;
    }

    /** SocketStream::read: the number of bytes and the bytes. */
    method Read(size: nat) returns (n: int, data: string)
      requires Valid()
      modifies this
      ensures Valid() && calls >= old(calls)
      ensures n < 0 ==> data == "" && Rest() == old(Rest())
      ensures n >= 0 ==> n == |data| <= size && data + Rest() == old(Rest())
      ensures n == 0 && size > 0 ==> old(Rest()) == ""
      ensures delivered == old(delivered) + data && old(received) <= received
      ensures (forall k :: answers(k).Deliver?) ==> n >= 0
    {
      var size := if size < SSIZE_MAX then size else SSIZE_MAX;
      if off < contentSize {
        n, data := ReadBuffered(size);
        return;
      }
      if answers(calls).NotReady? {
        calls := calls + 1;
        return -1, "";
      }
      assert buff[off..contentSize] == "";
      off, contentSize := 0, 0;
      if size < READ_BUFF_SIZE {
        n, data := ReadThrough(size);
      } else {
        n, data := ReadSocket(size);
        delivered := delivered + data;
      }
    }
  }

  // ----- lines

  /** The number of bytes up to and with the first CRLF; all, if there is none. */
  function LineLength(s: string): (n: nat)
    ensures n <= |s| && (s != "" ==> n > 0)
  {
    if Find(s, CRLF) < |s| then Find(s, CRLF) + |CRLF| else |s|
  }

  function FirstLine(s: string): string { s[..LineLength(s)] }

  function AfterLine(s: string): string { s[LineLength(s)..] }

  class LineReader {
    const strm: SocketStream
    const fixedSize: nat
    const fixed: array<char>
    var used: nat
    var growable: string

    ghost predicate Valid()
      reads this, fixed
    {
      && fixed.Length == fixedSize >= 2 && used < fixedSize
      && (used > 0 ==> fixed[used] == '\0')
      && (growable != "" ==> used == fixedSize - 1 && fixed[..used] <= growable)
    }

    /** ptr() and size(): the line read last. */
    function Line(): string
      reads this, fixed
      requires Valid()
    {
      if growable == "" then fixed[..used] else growable
    }

    constructor (strm: SocketStream, fixedSize: nat)
      requires fixedSize >= 2
      ensures Valid() && this.strm == strm && fresh(fixed) && this.fixedSize == fixedSize
    {
      this.strm, this.fixedSize := strm, fixedSize;
      fixed := new char[fixedSize];
      used, growable := 0, "";
    }

    /** Adds a byte, in the fixed buffer while there is room, and then in the
        growable one. */
    method AppendByte(c: char)
      requires Valid()
      modifies this, fixed
      ensures Valid() && Line() == old(Line()) + [c]
    {
      if used < fixedSize - 1 {
        fixed[used] := c;
        used := used + 1;
        fixed[used] := '\0';
        assert fixed[..used] == old(fixed[..used]) + [c];
      } else {
        if growable == "" {
          assert fixed[used] == '\0';
          growable := fixed[..used];
        }
        growable := growable + [c];
      }
    }

    /** Adds a byte; the line ends with it if it completes a CRLF. */
    method TakeByte(prev: char, c: char, ghost rest: string) returns (ended: bool)
      requires Valid() && Unbroken(Line()) && prev == if Line() == "" then '\0' else Line()[|Line()| - 1]
      modifies this, fixed
      ensures Valid() && Line() == old(Line()) + [c]
      ensures ended ==> FirstLine(Line() + rest) == Line() && AfterLine(Line() + rest) == rest
      ensures !ended ==> Unbroken(Line())
    {
      ghost var line := Line();
      AppendByte(c);
      if prev == '\r' && c == '\n' {
        LineEnds(line, rest);
        return true;
      }
      StillUnbroken(line, c);
      return false;
    }

    /** getline: one line of the stream, with its CRLF unless the stream ends. */
    method Getline() returns (ok: bool)
      requires Valid() && strm.Valid()
      modifies this, fixed, strm
      ensures Valid() && strm.Valid() && strm.calls >= old(strm.calls)
      ensures ok ==> Line() == FirstLine(old(strm.Rest())) && strm.Rest() == AfterLine(old(strm.Rest()))
      ensures ok ==> old(strm.Rest()) != ""
      ensures |strm.Rest()| <= |old(strm.Rest())|
      ensures (forall k :: strm.answers(k).Deliver?) ==> (ok <==> old(strm.Rest()) != "")
    {
      used, growable := 0, "";
      var prev := '\0';
      var first := true;
      ghost var all := strm.Rest();
      assert Line() == "";
      while true
        invariant Valid() && strm.Valid() && strm.calls >= old(strm.calls)
        invariant Line() + strm.Rest() == all
        invariant first <==> Line() == ""
        invariant prev == if first then '\0' else Line()[|Line()| - 1]
        invariant Unbroken(Line())
        decreases |strm.Rest()|
      {
        var n, data := strm.Read(1);
        if n < 0 { return false; }
        if n == 0 {
          assert Line() + "" == Line();
          if first { return false; }
          WholeLine(Line());
          return true;
        }
        ghost var line, rest := Line(), strm.Rest();
        assert data == [data[0]];
        AppendAssoc(line, data, rest);
        var ended := TakeByte(prev, data[0], rest);
        if ended { return true; }
        prev := data[0];
        first := false;
      }
    }
  }

  /** There is no CRLF in s. */
  ghost predicate Unbroken(s: string) {
    forall i :: 0 <= i < |s| ==> !At(s, CRLF, i)
  }

  lemma PairAt(s: string, i: nat)
    ensures At(s, CRLF, i) <==> i + 1 < |s| && s[i] == '\r' && s[i + 1] == '\n'
  {
  }

  lemma WholeLine(s: string)
    requires Unbroken(s)
    ensures FirstLine(s) == s && AfterLine(s) == ""
  {
  }

  lemma StillUnbroken(s: string, c: char)
    requires Unbroken(s) && !(s != "" && s[|s| - 1] == '\r' && c == '\n')
    ensures Unbroken(s + [c])
  {
    forall i | 0 <= i < |s + [c]| ensures !At(s + [c], CRLF, i) {
      PairAt(s + [c], i);
      PairAt(s, i);
      assert i < |s| ==> !At(s, CRLF, i);
    }
  }

  lemma LineEnds(s: string, rest: string)
    requires Unbroken(s) && s != "" && s[|s| - 1] == '\r'
    ensures FirstLine(s + ['\n'] + rest) == s + ['\n'] && AfterLine(s + ['\n'] + rest) == rest
  {
    var all := s + ['\n'] + rest;
    PairAt(all, |s| - 1);
    forall i | 0 <= i < |s| - 1 ensures !At(all, CRLF, i) {
      PairAt(all, i);
      PairAt(s, i);
      assert !At(s, CRLF, i);
    }
    FindIs(all, CRLF, |s| - 1);
  }

  // ----- writing

  /** A socket to write to: the poll before the k-th send, and the number of bytes
      that the k-th send takes; negative for an error. A send may take nothing, but
      not for ever: `next` is the first send from the k-th on that takes something
      or fails. */
  class WriteStream {
    const writable: nat -> bool
    const takes: nat -> int
    ghost const next: nat -> nat
    var calls: nat
    var written: string

    ghost predicate Progresses() {
      forall k: nat :: next(k) >= k && takes(next(k)) != 0 && (next(k) > k ==> next(k + 1) == next(k))
    }

    /** No send fails. */
    ghost predicate NeverFails() { forall k: nat :: takes(k) >= 0 && writable(k) }

    constructor (writable: nat -> bool, takes: nat -> int, ghost next: nat -> nat)
      ensures written == "" && this.writable == writable && this.takes == takes && this.next == next
    {
      this.writable, this.takes, this.next, calls, written := writable, takes, next, 0, "";
    }

    /** is_writable: each question has its own answer. */
    method IsWritable() returns (ready: bool)
      modifies this`calls
      ensures NeverFails() ==> ready
    {
      ready := writable(calls);
      calls := calls + 1;
    }

    method Send(data: string) returns (n: int)
      requires data != "" && Progresses()
      modifies this
      ensures n < 0 ==> written == old(written)
      ensures n >= 0 ==> n <= |data| && written == old(written) + data[..n]
      ensures n >= 0 ==> n == if takes(old(calls)) < |data| then takes(old(calls)) else |data|
      ensures n == 0 ==> next(calls) - calls < next(old(calls)) - old(calls)
      ensures NeverFails() ==> n >= 0
    {
      var take := takes(calls);
      var ready := writable(calls);
      assert next(calls) >= calls && (next(calls) > calls ==> next(calls + 1) == next(calls));
      calls := calls + 1;
      if take < 0 || !ready { return -1; }
      n := if take < |data| then take else |data|;
      written := written + data[..n];
    }

    /** write_data: all of the data, in as many sends as it takes. */
    method WriteData(data: string) returns (ok: bool)
      requires Progresses()
      modifies this
      ensures ok ==> written == old(written) + data
      ensures !ok ==> old(written) <= written <= old(written) + data
      ensures NeverFails() ==> ok
    {
      var offset := 0;
      while offset < |data|
        invariant offset <= |data| && written == old(written) + data[..offset]
        invariant next(calls) >= calls
        decreases |data| - offset, next(calls) - calls
      {
        var n := Send(data[offset..]);
        if n < 0 { return false; }
        assert data[..offset] + data[offset..][..n] == data[..offset + n];
        offset := offset + n;
      }
      return true;
    }
  }
}
