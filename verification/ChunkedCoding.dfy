/**
 The chunked transfer coding of httplib (Httplib/httplib.h, RFC 9112 section
 7.1): the writer, the reader, and that the reader restores what the writer was
 given, however the bytes travel.
 */
module ChunkedCoding {
  import opened Prelude
  import opened HttpText
  import opened Streams

  const ULONG_MAX: nat := 0xffff_ffff_ffff_ffff
  const RECV_BUFSIZ: nat := 16384

  // ----- numbers in hexadecimal

  function HexDigit(d: nat): (c: char)
    requires d < 16
    ensures HexValue(c) == d
  {
    if d < 10 then (d + '0' as int) as char else (d - 10 + 'a' as int) as char
  }

  /** from_i_to_hex */
  function ToHex(n: nat): string {
    (if n < 16 then [] else ToHex(n / 16)) + [HexDigit(n % 16)]
  }

  method FromIToHex(n: nat) returns (r: string)
    ensures r == ToHex(n)
  {
    var m := n;
    r := [HexDigit(m % 16)];
    m := m / 16;
    while m > 0
      invariant (if m == 0 then [] else ToHex(m)) + r == ToHex(n)
    {
      assert ToHex(m) == (if m < 16 then [] else ToHex(m / 16)) + [HexDigit(m % 16)];
      AppendAssoc(if m < 16 then [] else ToHex(m / 16), [HexDigit(m % 16)], r);
      r := [HexDigit(m % 16)] + r;
      m := m / 16;
    }
    assert [] + r == r;
  }

  /** How many characters from the front are hexadecimal digits. */
  function HexDigitCount(s: string): (n: nat)
    ensures n <= |s|
  {
    if s != [] && HexValue(s[0]) >= 0 then 1 + HexDigitCount(s[1..]) else 0
  }

  /** The number that the first n characters, all digits, denote. */
  function DigitsValue(s: string, n: nat): nat
    requires n <= HexDigitCount(s)
    decreases n
  {
    if n == 0 then 0 else DigitsPrefix(s, n - 1); 16 * DigitsValue(s, n - 1) + HexValue(s[n - 1])
  }

  lemma {:induction false} DigitsPrefix(s: string, i: nat)
    requires i < HexDigitCount(s)
    ensures HexValue(s[i]) >= 0
    decreases i
  {
    if i > 0 {
      DigitsPrefix(s[1..], i - 1);
    }
  }

  lemma {:induction false} DigitsAre(s: string, n: nat)
    requires n <= |s| && (forall i :: 0 <= i < n ==> HexValue(s[i]) >= 0)
    requires n < |s| ==> HexValue(s[n]) < 0
    ensures HexDigitCount(s) == n
    decreases n
  {
    if n > 0 {
      DigitsAre(s[1..], n - 1);
    }
  }

  /** strtoul in base 16: whether there was a number, and its value, which is
      ULONG_MAX when it is too large and wraps when there is a minus sign. */
  function StrToUl(s: string): (bool, nat) {
    var t := SkipSpace(s);
    var negative := t != [] && t[0] == '-';
    var u := if t != [] && t[0] in ['+', '-'] then t[1..] else t;
    var v := if |u| >= 3 && u[0] == '0' && u[1] in ['x', 'X'] && HexValue(u[2]) >= 0 then u[2..] else u;
    var n := HexDigitCount(v);
    if n == 0 then (false, 0) else
    var value := DigitsValue(v, n);
    if value > ULONG_MAX then (true, ULONG_MAX)
    else if negative && value > 0 then (true, ULONG_MAX + 1 - value)
    else (true, value)
  }

  lemma {:induction false} ToHexDigits(n: nat)
    ensures ToHex(n) != [] && (forall i :: 0 <= i < |ToHex(n)| ==> HexValue(ToHex(n)[i]) >= 0)
    ensures n > 0 ==> ToHex(n)[0] != '0'
  {
    if n >= 16 {
      ToHexDigits(n / 16);
    }
  }

  lemma {:induction false} DigitsOfHex(n: nat, rest: string)
    requires rest != [] && HexValue(rest[0]) < 0
    ensures HexDigitCount(ToHex(n) + rest) == |ToHex(n)|
    ensures DigitsValue(ToHex(n) + rest, |ToHex(n)|) == n
  {
    ToHexDigits(n);
    var s := ToHex(n) + rest;
    DigitsAre(s, |ToHex(n)|);
    if n >= 16 {
      var front := ToHex(n / 16);
      ToHexDigits(n / 16);
      assert s == front + ([HexDigit(n % 16)] + rest);
      HexFront(n / 16, [HexDigit(n % 16)] + rest, |front|);
      assert s[|front|] == HexDigit(n % 16);
    } else {
      assert s[0] == HexDigit(n % 16);
      assert DigitsValue(s, 0) == 0;
    }
  }

  /** The digits of n denote n also when more digits follow. */
  lemma {:induction false} HexFront(n: nat, rest: string, k: nat)
    requires k == |ToHex(n)| <= HexDigitCount(ToHex(n) + rest)
    ensures DigitsValue(ToHex(n) + rest, k) == n
  {
    var s := ToHex(n) + rest;
    if n >= 16 {
      var front := ToHex(n / 16);
      assert s == front + ([HexDigit(n % 16)] + rest);
      HexFront(n / 16, [HexDigit(n % 16)] + rest, k - 1);
    } else {
      assert DigitsValue(s, 0) == 0;
    }
    assert s[k - 1] == HexDigit(n % 16);
  }

  /** strtoul reads back what from_i_to_hex wrote, up to the largest value. */
  lemma HexRoundTrip(n: nat)
    ensures StrToUl(ToHex(n) + CRLF) == (true, if n > ULONG_MAX then ULONG_MAX else n)
  {
    var s := ToHex(n) + CRLF;
    ToHexDigits(n);
    DigitsOfHex(n, CRLF);
    PlainDigits(s, |ToHex(n)|, n);
  }

  /** strtoul on digits that begin with 0 only if there is one digit. */
  lemma PlainDigits(s: string, d: nat, n: nat)
    requires 0 < d < |s| && HexValue(s[0]) >= 0 && s[d] == '\r' && (d > 1 ==> s[0] != '0')
    requires HexDigitCount(s) == d && DigitsValue(s, d) == n
    ensures StrToUl(s) == (true, if n > ULONG_MAX then ULONG_MAX else n)
  {
    assert HexValue('-') < 0 && HexValue('+') < 0;
    assert !IsSpace(s[0]);
  }

  // ----- the reader, as a function of the bytes in the stream

  /** The C string that begins a line. */
  function CString(s: string): string { s[..IndexOf(s, '\0')] }

  /** What the reader comes to: the content, the trailer lines and the bytes that
      it leaves in the stream. */
  datatype Reading = Done(body: string, trailers: seq<string>, rest: string) | Failed

  /** From a chunk-size line on, with the bytes behind it. */
  function ReadChunks(line: string, s: string, body: string): Reading
    decreases |s|
  {
    var (number, len) := StrToUl(line);
    if !number || len == ULONG_MAX then Failed
    else if len == 0 then ReadTrailers(s, body)
    else if |s| < len then Failed
    else
      var behind := s[len..];
      if behind == "" || CString(FirstLine(behind)) != CRLF || AfterLine(behind) == "" then Failed else
      var next := AfterLine(behind);
      ReadChunks(FirstLine(next), AfterLine(next), body + s[..len])
  }

  /** Behind the chunk of size zero; the empty line at the very end may be missing. */
  function ReadTrailers(s: string, body: string): Reading {
    if s == "" then Done(body, [], "") else TrailerLines(FirstLine(s), AfterLine(s), body, [])
  }

  function TrailerLines(line: string, s: string, body: string, trailers: seq<string>): Reading
    decreases |s|
  {
    if CString(line) == CRLF then Done(body, trailers, s)
    else if |line| > HEADER_MAX || s == "" then Failed
    else TrailerLines(FirstLine(s), AfterLine(s), body, trailers + [line])
  }

  /** The content of the chunks in front of the one of size zero, if the bytes go that
      far; whatever follows them. */
  function ReadSizes(line: string, s: string, body: string): Option<string>
    decreases |s|
  {
    var (number, len) := StrToUl(line);
    if !number || len == ULONG_MAX then None
    else if len == 0 then Some(body)
    else if |s| < len then None
    else
      var behind := s[len..];
      if behind == "" || CString(FirstLine(behind)) != CRLF || AfterLine(behind) == "" then None else
      var next := AfterLine(behind);
      ReadSizes(FirstLine(next), AfterLine(next), body + s[..len])
  }

  function ReadBody(s: string): Option<string> {
    if s == "" then None else ReadSizes(FirstLine(s), AfterLine(s), "")
  }

  function ReadContent(s: string): Reading {
    if s == "" then Failed else ReadChunks(FirstLine(s), AfterLine(s), "")
  }

  // ----- the reader

  /** read_content_with_length; the receiver takes whatever it is given. */
  method ReadContentWithLength(strm: SocketStream, len: nat) returns (ok: bool, out: string)
    requires strm.Valid()
    modifies strm
    ensures strm.Valid()
    ensures ok ==> |out| == len && old(strm.Rest()) == out + strm.Rest()
    ensures (forall k :: strm.answers(k).Deliver?) ==> (ok <==> len <= |old(strm.Rest())|)
  {
    out := "";
    var r := 0;
    while r < len
      invariant strm.Valid() && r == |out| <= len
      invariant old(strm.Rest()) == out + strm.Rest()
    {
      var n, data := strm.Read(if len - r < RECV_BUFSIZ then len - r else RECV_BUFSIZ);
      if n <= 0 { return false, out; }
      AppendAssoc(out, data, strm.Rest());
      out := out + data;
      r := r + n;
    }
    return true, out;
  }

  ghost predicate Delivers(strm: SocketStream) { forall k :: strm.answers(k).Deliver? }

  /** The trailer section. */
  method ReadTrailerSection(reader: LineReader, ghost body: string) returns (ok: bool, trailers: seq<string>)
    requires reader.Valid() && reader.strm.Valid()
    modifies reader, reader.fixed, reader.strm
    ensures reader.Valid() && reader.strm.Valid()
    ensures Delivers(reader.strm) ==>
      ReadTrailers(old(reader.strm.Rest()), body) == if ok then Done(body, trailers, reader.strm.Rest()) else Failed
    ensures ok && trailers != [] ==> ReadTrailers(old(reader.strm.Rest()), body) == Done(body, trailers, reader.strm.Rest())
  {
    trailers := [];
    ghost var all := reader.strm.Rest();
    ok := reader.Getline();
    if !ok { return true, []; }
    while CString(reader.Line()) != CRLF
      invariant reader.Valid() && reader.strm.Valid()
      invariant ReadTrailers(all, body) == TrailerLines(reader.Line(), reader.strm.Rest(), body, trailers)
      decreases |reader.strm.Rest()|
    {
      if |reader.Line()| > HEADER_MAX { return false, trailers; }
      trailers := trailers + [reader.Line()];
      ok := reader.Getline();
      if !ok { return false, trailers; }
    }
    return true, trailers;
  }

  /** read_content_chunked: on a stream that delivers, exactly what the function of
      its bytes says. Where reads fail, a result that is ok still has the whole body;
      only behind the chunk of size zero a failed read is taken for the end. */
  method ReadContentChunked(strm: SocketStream) returns (ok: bool, body: string, trailers: seq<string>)
    requires strm.Valid()
    modifies strm
    ensures strm.Valid()
    ensures Delivers(strm) ==>
      ReadContent(old(strm.Rest())) == if ok then Done(body, trailers, strm.Rest()) else Failed
    ensures ok ==> ReadBody(old(strm.Rest())) == Some(body)
    ensures ok && trailers != [] ==> ReadContent(old(strm.Rest())) == Done(body, trailers, strm.Rest())
  {
    body, trailers := "", [];
    ghost var reading, content := ReadContent(strm.Rest()), ReadBody(strm.Rest());
    var reader := new LineReader(strm, 16);
    ok := reader.Getline();
    if !ok { return; }
    while true
      invariant reader.Valid() && strm.Valid() && reader.strm == strm && fresh(reader) && fresh(reader.fixed)
      invariant reading == ReadChunks(reader.Line(), strm.Rest(), body)
      invariant content == ReadSizes(reader.Line(), strm.Rest(), body)
      decreases |strm.Rest()|
    {
      var (number, len) := StrToUl(reader.Line());
      if !number || len == ULONG_MAX { return false, body, trailers; }
      if len == 0 { break; }
      var chunk;
      ok, chunk := ReadContentWithLength(strm, len);
      if !ok { return; }
      body := body + chunk;
      ok := reader.Getline();
      if !ok { return; }
      if CString(reader.Line()) != CRLF { return false, body, trailers; }
      ok := reader.Getline();
      if !ok { return; }
    }
    ok, trailers := ReadTrailerSection(reader, body);
  }

  /** A complete reading has that body. */
  lemma {:induction false} ReadingHasBody(line: string, s: string, body: string)
    ensures ReadChunks(line, s, body).Done? ==> ReadSizes(line, s, body) == Some(ReadChunks(line, s, body).body)
    decreases |s|
  {
    var len := StrToUl(line).1;
    if 0 < len <= |s| && s[len..] != "" && AfterLine(s[len..]) != "" {
      var next := AfterLine(s[len..]);
      ReadingHasBody(FirstLine(next), AfterLine(next), body + s[..len]);
    }
    TrailersKeepBody(FirstLine(s), AfterLine(s), body, []);
  }

  lemma {:induction false} TrailersKeepBody(line: string, s: string, body: string, trailers: seq<string>)
    ensures var r := TrailerLines(line, s, body, trailers); r.Done? ==> r.body == body
    decreases |s|
  {
    if CString(line) != CRLF && |line| <= HEADER_MAX && s != "" {
      TrailersKeepBody(FirstLine(s), AfterLine(s), body, trailers + [line]);
    }
  }

  // ----- the writer

  function Chunk(piece: string): string { ToHex(|piece|) + CRLF + piece + CRLF }

  const LAST_CHUNK: string := "0\r\n\r\n"

  /** Pieces that are not empty, as chunks, and the last chunk. */
  function Chunks(pieces: seq<string>): string {
    if pieces == [] then LAST_CHUNK else Chunk(pieces[0]) + Chunks(pieces[1..])
  }

  /** What the provider does with the sink: hands it a piece, or calls done. */
  datatype Act = Write(piece: string) | Finish

  /** One call of the provider: what it does with the sink, and whether it accepts. */
  datatype ProviderCall = ProviderCall(acts: seq<Act>, accepted: bool)

  function ActSent(act: Act): string {
    match act
    case Write(piece) => if piece == "" then "" else Chunk(piece)
    case Finish => LAST_CHUNK
  }

  function ActsSent(acts: seq<Act>): string {
    if acts == [] then "" else ActSent(acts[0]) + ActsSent(acts[1..])
  }

  /** Whether the loop may go on: the last act decides. */
  function Available(acts: seq<Act>): bool {
    acts == [] || var act := acts[|acts| - 1]; act.Write? && act.piece != ""
  }

  /** The i-th call; a provider that has handed over all it has calls done. */
  function CallAt(calls: seq<ProviderCall>, i: nat): ProviderCall {
    if i < |calls| then calls[i] else ProviderCall([Finish], true)
  }

  /** What is sent from the i-th call on when no write fails, and whether the writer
      succeeds: not when the provider refuses, but when the server shuts down. */
  function Produced(calls: seq<ProviderCall>, i: nat, stop: nat -> bool): (string, bool)
    requires i <= |calls|
    decreases |calls| - i
  {
    if stop(i) then ("", true) else
    var call := CallAt(calls, i);
    if !call.accepted then (ActsSent(call.acts), false)
    else if i == |calls| || !Available(call.acts) then (ActsSent(call.acts), true)
    else
      var rest := Produced(calls, i + 1, stop);
      (ActsSent(call.acts) + rest.0, rest.1)
  }

  /** write_content_chunked without compression. */
  method WriteContentChunked(strm: WriteStream, calls: seq<ProviderCall>, stop: nat -> bool) returns (ok: bool)
    requires strm.Progresses()
    modifies strm
    ensures ok ==> Produced(calls, 0, stop).1 && strm.written == old(strm.written) + Produced(calls, 0, stop).0
    ensures !ok ==> Partly(old(strm.written), strm.written, Produced(calls, 0, stop).0)
    ensures strm.NeverFails() ==> ok == Produced(calls, 0, stop).1
  {
    ghost var before, all := strm.written, Produced(calls, 0, stop);
    ghost var left := all;
    var i := 0;
    var dataAvailable := true;
    while dataAvailable && !stop(i)
      invariant i <= |calls| + 1 && (dataAvailable ==> i <= |calls| && left == Produced(calls, i, stop))
      invariant before <= strm.written && strm.written + left.0 == before + all.0 && left.1 == all.1
      invariant !dataAvailable ==> left == ("", true)
      decreases dataAvailable, |calls| - i
    {
      ghost var middle := strm.written;
      ghost var sent := ActsSent(CallAt(calls, i).acts);
      ghost var rest := left.0[|sent|..];
      assert left.0 == sent + rest;
      var ready := strm.IsWritable();
      if !ready {
        PartlyNothing(strm.written, sent);
        PartlyMore(before, middle, strm.written, sent, rest, all.0);
        return false;
      }
      ok, dataAvailable := RunActs(strm, CallAt(calls, i).acts);
      if !CallAt(calls, i).accepted || !ok {
        if ok { PartlyAll(middle, strm.written, sent); }
        PartlyMore(before, middle, strm.written, sent, rest, all.0);
        return false;
      }
      if i == |calls| { dataAvailable := false; }
      left := if dataAvailable then Produced(calls, i + 1, stop) else ("", true);
      AppendAssoc(middle, sent, left.0);
      i := i + 1;
    }
    return true;
  }

  /** One call of the provider. */
  method RunActs(strm: WriteStream, acts: seq<Act>) returns (ok: bool, dataAvailable: bool)
    requires strm.Progresses()
    modifies strm
    ensures ok ==> strm.written == old(strm.written) + ActsSent(acts) && dataAvailable == Available(acts)
    ensures !ok ==> Partly(old(strm.written), strm.written, ActsSent(acts))
    ensures strm.NeverFails() ==> ok
  {
    ghost var before, left := strm.written, ActsSent(acts);
    ok, dataAvailable := true, true;
    assert acts[0..] == acts;
    for i := 0 to |acts|
      invariant ok && left == ActsSent(acts[i..]) && dataAvailable == Available(acts[..i])
      invariant before <= strm.written && strm.written + left == before + ActsSent(acts)
    {
      ghost var middle, rest := strm.written, ActsSent(acts[i + 1..]);
      assert acts[i..][0] == acts[i] && acts[i..][1..] == acts[i + 1..];
      AppendAssoc(middle, ActSent(acts[i]), rest);
      match acts[i] {
        case Write(piece) =>
          dataAvailable := |piece| > 0;
          if piece != "" { ok := SendChunk(strm, piece); }
        case Finish =>
          dataAvailable := false;
          ok := SendLast(strm);
      }
      if !ok {
        // what the other acts of this call do has no effect any more
        PartlyMore(before, middle, strm.written, ActSent(acts[i]), rest, ActsSent(acts));
        return;
      }
      left := rest;
    }
    assert acts[..|acts|] == acts;
  }

  /** The sink: one chunk, in one go. */
  method SendChunk(strm: WriteStream, piece: string) returns (ok: bool)
    requires piece != "" && strm.Progresses()
    modifies strm
    ensures ok ==> strm.written == old(strm.written) + Chunk(piece)
    ensures !ok ==> Partly(old(strm.written), strm.written, Chunk(piece))
    ensures strm.NeverFails() ==> ok
  {
    var hex := FromIToHex(|piece|);
    var chunk := hex + CRLF + piece + CRLF;
    ghost var start := strm.written;
    ok := strm.IsWritable();
    if ok { ok := strm.WriteData(chunk); }
    if !ok { PartlyPrefix(start, strm.written, chunk); }
  }

  /** done: the last chunk and the end of the trailer section. The second is tried
      even when the first has failed. */
  method SendLast(strm: WriteStream) returns (ok: bool)
    requires strm.Progresses()
    modifies strm
    ensures ok ==> strm.written == old(strm.written) + LAST_CHUNK
    ensures !ok ==> Partly(old(strm.written), strm.written, LAST_CHUNK)
    ensures strm.NeverFails() ==> ok
  {
    LastChunk();
    ghost var start := strm.written;
    AppendAssoc(start, "0" + CRLF, CRLF);
    var first := strm.WriteData("0" + CRLF);
    ghost var middle := strm.written;
    var second := strm.WriteData(CRLF);
    ok := first && second;
    if !ok { PartlyLast(start, middle, strm.written); }
  }

  /** What a failed writer has sent of s: some of its beginning, and then perhaps some
      of the last CRLF. */
  ghost predicate Partly(before: string, written: string, s: string) {
    exists n: nat, m: nat :: n <= |s| && m <= |CRLF| && written == before + s[..n] + CRLF[..m]
  }

  lemma PartlyPrefix(before: string, written: string, s: string)
    requires before <= written <= before + s
    ensures Partly(before, written, s)
  {
    assert written == before + s[..|written| - |before|] + CRLF[..0];
  }

  lemma PartlyNothing(before: string, s: string)
    ensures Partly(before, before, s)
  {
    PartlyPrefix(before, before, s);
  }

  lemma PartlyAll(before: string, written: string, s: string)
    requires written == before + s
    ensures Partly(before, written, s)
  {
    PartlyPrefix(before, written, s);
  }

  lemma PartlyLast(start: string, middle: string, written: string)
    requires start <= middle <= start + ("0" + CRLF) && middle <= written <= middle + CRLF
    ensures Partly(start, written, LAST_CHUNK)
  {
    LastChunk();
    var n, m := |middle| - |start|, |written| - |middle|;
    assert LAST_CHUNK[..n] == ("0" + CRLF)[..n] && middle == start + ("0" + CRLF)[..n];
    assert written == start + LAST_CHUNK[..n] + CRLF[..m];
  }

  /** Some of a part, behind what was sent before it. */
  lemma PartlyMore(before: string, middle: string, written: string, part: string, rest: string, s: string)
    requires before <= middle && middle + (part + rest) == before + s && Partly(middle, written, part)
    ensures Partly(before, written, s)
  {
    var n: nat, m: nat :| n <= |part| && m <= |CRLF| && written == middle + part[..n] + CRLF[..m];
    var k := |middle| - |before|;
    Parts(before, middle, part, rest, s, k, n);
    assert written == before + s[..k + n] + CRLF[..m];
  }

  lemma Parts(before: string, middle: string, part: string, rest: string, s: string, k: nat, n: nat)
    requires before <= middle && middle + (part + rest) == before + s && k == |middle| - |before| && n <= |part|
    ensures k + n <= |s| && before + s[..k + n] == middle + part[..n]
  {
    assert middle + part[..n] == (middle + (part + rest))[..|middle| + n] == (before + s)[..|before| + (k + n)];
  }

  lemma LastChunk()
    ensures "0" + CRLF + CRLF == LAST_CHUNK
  {
  }

  // ----- the law

  /** A line without CR in front of a CRLF is the first line. */
  lemma LineOf(text: string, rest: string)
    requires '\r' !in text
    ensures FirstLine(text + CRLF + rest) == text + CRLF && AfterLine(text + CRLF + rest) == rest
  {
    var s := text + CRLF + rest;
    forall i | 0 <= i < |text| ensures !At(s, CRLF, i) {
      PairAt(s, i);
      assert s[i] == text[i];
    }
    PairAt(s, |text|);
    FindIs(s, CRLF, |text|);
    assert s[..|text| + 2] == text + CRLF;
  }

  lemma NoCrInHex(n: nat)
    ensures '\r' !in ToHex(n) && '\0' !in ToHex(n)
  {
  }

  /** One chunk in front of something: the reader goes on behind it. */
  lemma ReadOneChunk(piece: string, next: string, body: string)
    requires 0 < |piece| < ULONG_MAX && next != ""
    ensures ReadChunks(ToHex(|piece|) + CRLF, piece + CRLF + next, body)
         == ReadChunks(FirstLine(next), AfterLine(next), body + piece)
  {
    HexRoundTrip(|piece|);
    EmptyLineOf(next);
    AppendAssoc(piece, CRLF, next);
    ReadChunkBody(ToHex(|piece|) + CRLF, piece, CRLF + next, next, piece + CRLF + next, body);
  }

  lemma EmptyLineOf(next: string)
    ensures FirstLine(CRLF + next) == CRLF && AfterLine(CRLF + next) == next && CString(CRLF) == CRLF
  {
  }

  lemma ReadChunkBody(line: string, piece: string, behind: string, next: string, s: string, body: string)
    requires StrToUl(line) == (true, |piece|) && 0 < |piece| < ULONG_MAX && next != ""
    requires behind != "" && CString(FirstLine(behind)) == CRLF && AfterLine(behind) == next
    requires s == piece + behind
    ensures ReadChunks(line, s, body) == ReadChunks(FirstLine(next), AfterLine(next), body + piece)
  {
  }

  /** The chunks in front of anything. */
  lemma {:induction false} ReadAllChunks(pieces: seq<string>, tail: string, body: string)
    requires forall i :: 0 <= i < |pieces| ==> 0 < |pieces[i]| < ULONG_MAX
    ensures var s := Chunks(pieces) + tail;
      s != "" && ReadChunks(FirstLine(s), AfterLine(s), body) == Done(body + Concat(pieces), [], tail)
    decreases |pieces|
  {
    var s := Chunks(pieces) + tail;
    if pieces == [] {
      ReadLastChunk(tail, body);
      assert body + "" == body;
    } else {
      var piece, next := pieces[0], Chunks(pieces[1..]) + tail;
      assert s == ToHex(|piece|) + CRLF + (piece + CRLF + next);
      NoCrInHex(|piece|);
      LineOf(ToHex(|piece|), piece + CRLF + next);
      ReadAllChunks(pieces[1..], tail, body + piece);
      ReadOneChunk(piece, next, body);
      AppendAssoc(body, piece, Concat(pieces[1..]));
    }
  }

  lemma ReadLastChunk(tail: string, body: string)
    ensures var s := LAST_CHUNK + tail;
      ReadChunks(FirstLine(s), AfterLine(s), body) == Done(body, [], tail)
  {
    LastChunk();
    var s := LAST_CHUNK + tail;
    assert ToHex(0) == "0";
    assert s == "0" + CRLF + (CRLF + tail);
    LineOf("0", CRLF + tail);
    HexRoundTrip(0);
    NoTrailers(tail, body);
  }

  lemma NoTrailers(tail: string, body: string)
    ensures ReadTrailers(CRLF + tail, body) == Done(body, [], tail)
  {
    EmptyLineOf(tail);
  }

  /** Whatever non-empty pieces are written and whatever bytes follow in the stream:
      reading gives back their concatenation and leaves exactly what follows. */
  lemma RoundTrip(pieces: seq<string>, tail: string)
    requires forall i :: 0 <= i < |pieces| ==> 0 < |pieces[i]| < ULONG_MAX
    ensures ReadContent(Chunks(pieces) + tail) == Done(Concat(pieces), [], tail)
  {
    ReadAllChunks(pieces, tail, "");
    assert "" + Concat(pieces) == Concat(pieces);
  }

  // ----- how the pieces are handed over

  function PiecesOf(acts: seq<Act>): seq<string> {
    if acts == [] then [] else (if acts[0].Write? then [acts[0].piece] else []) + PiecesOf(acts[1..])
  }

  /** All the pieces that the provider hands over, from the i-th call on. */
  function Pieces(calls: seq<ProviderCall>, i: nat): seq<string>
    requires i <= |calls|
    decreases |calls| - i
  {
    if i == |calls| then [] else PiecesOf(calls[i].acts) + Pieces(calls, i + 1)
  }

  function NonEmpty(pieces: seq<string>): seq<string> {
    if pieces == [] then [] else (if pieces[0] == "" then [] else [pieces[0]]) + NonEmpty(pieces[1..])
  }

  lemma {:induction false} NonEmptyConcat(pieces: seq<string>)
    ensures Concat(NonEmpty(pieces)) == Concat(pieces)
  {
    if pieces != [] {
      NonEmptyConcat(pieces[1..]);
      if pieces[0] != "" {
        assert NonEmpty(pieces)[1..] == NonEmpty(pieces[1..]);
      } else {
        assert NonEmpty(pieces) == NonEmpty(pieces[1..]);
      }
    }
  }

  lemma {:induction false} NonEmptyAppend(a: seq<string>, b: seq<string>)
    ensures NonEmpty(a + b) == NonEmpty(a) + NonEmpty(b)
  {
    if a == [] {
      assert a + b == b;
    } else {
      assert (a + b)[1..] == a[1..] + b;
      NonEmptyAppend(a[1..], b);
      AppendAssoc(if a[0] == "" then [] else [a[0]], NonEmpty(a[1..]), NonEmpty(b));
    }
  }

  predicate Small(pieces: seq<string>) { forall k :: 0 <= k < |pieces| ==> |pieces[k]| < ULONG_MAX }

  lemma {:induction false} NonEmptySmall(pieces: seq<string>)
    requires Small(pieces)
    ensures forall k :: 0 <= k < |NonEmpty(pieces)| ==> 0 < |NonEmpty(pieces)[k]| < ULONG_MAX
  {
    if pieces != [] {
      NonEmptySmall(pieces[1..]);
    }
  }

  /** The acts hand over pieces, and nothing else. */
  predicate Writes(acts: seq<Act>) {
    forall k :: 0 <= k < |acts| ==> acts[k].Write? && |acts[k].piece| < ULONG_MAX
  }

  /** The provider never refuses and leaves it to the end to call done. */
  predicate Writing(calls: seq<ProviderCall>) {
    forall k :: 0 <= k < |calls| ==> calls[k].accepted && Writes(calls[k].acts)
  }

  lemma {:induction false} WritesSmall(acts: seq<Act>)
    requires Writes(acts)
    ensures Small(PiecesOf(acts))
  {
    if acts != [] {
      WritesSmall(acts[1..]);
    }
  }

  lemma {:induction false} WritingSmall(calls: seq<ProviderCall>, i: nat)
    requires i <= |calls| && Writing(calls)
    ensures Small(Pieces(calls, i))
    decreases |calls| - i
  {
    if i < |calls| {
      WritingSmall(calls, i + 1);
      WritesSmall(calls[i].acts);
    }
  }

  /** One call: a chunk for each piece that is not empty. */
  lemma {:induction false} ActsAreChunks(acts: seq<Act>, rest: seq<string>)
    requires Writes(acts)
    ensures ActsSent(acts) + Chunks(rest) == Chunks(NonEmpty(PiecesOf(acts)) + rest)
    decreases |acts|
  {
    if acts == [] {
      assert NonEmpty(PiecesOf(acts)) + rest == rest;
    } else {
      var piece, more := acts[0].piece, NonEmpty(PiecesOf(acts[1..]));
      ActsAreChunks(acts[1..], rest);
      FirstPiece(acts);
      if piece == "" {
        assert ActsSent(acts) == ActsSent(acts[1..]) && [] + more == more;
      } else {
        AppendAssoc([piece], more, rest);
        ChunksCons(piece, more + rest);
        AppendAssoc(Chunk(piece), ActsSent(acts[1..]), Chunks(rest));
      }
    }
  }

  lemma FirstPiece(acts: seq<Act>)
    requires acts != [] && acts[0].Write?
    ensures NonEmpty(PiecesOf(acts)) ==
      (if acts[0].piece == "" then [] else [acts[0].piece]) + NonEmpty(PiecesOf(acts[1..]))
  {
    assert PiecesOf(acts)[0] == acts[0].piece && PiecesOf(acts)[1..] == PiecesOf(acts[1..]);
  }

  lemma ChunksCons(piece: string, rest: seq<string>)
    ensures Chunks([piece] + rest) == Chunk(piece) + Chunks(rest)
  {
    assert ([piece] + rest)[1..] == rest;
  }

  /** From the i-th call on, the loop comes to its end: the server does not shut down,
      and no call ends with an empty piece. */
  ghost predicate Completes(calls: seq<ProviderCall>, i: nat, stop: nat -> bool) {
    && (forall k :: i <= k <= |calls| ==> !stop(k))
    && (forall k :: i <= k < |calls| ==> EndsInPiece(calls[k].acts))
  }

  /** The call does nothing, or the last that it does is to hand over a piece that is not
      empty. */
  ghost predicate EndsInPiece(acts: seq<Act>) {
    acts != [] ==> exists piece :: piece != "" && acts[|acts| - 1] == Write(piece)
  }

  lemma AvailableMeans(acts: seq<Act>)
    ensures Available(acts) <==> EndsInPiece(acts)
  {
    if Available(acts) && acts != [] {
      assert acts[|acts| - 1] == Write(acts[|acts| - 1].piece);
    }
  }

  /** However the pieces are handed over, several or none in a call, with empty ones
      among them: if the loop comes to its end, those that are not empty are sent, one
      chunk each, and then the last chunk. */
  lemma {:induction false} GroupingDoesNotMatter(calls: seq<ProviderCall>, i: nat, stop: nat -> bool)
    requires i <= |calls| && Writing(calls) && Completes(calls, i, stop)
    ensures Produced(calls, i, stop) == (Chunks(NonEmpty(Pieces(calls, i))), true)
    decreases |calls| - i
  {
    if i < |calls| {
      GroupingDoesNotMatter(calls, i + 1, stop);
      OneMoreCall(calls, i, stop, Pieces(calls, i + 1));
    } else {
      OneActSent(Finish);
    }
  }

  lemma OneMoreCall(calls: seq<ProviderCall>, i: nat, stop: nat -> bool, rest: seq<string>)
    requires i < |calls| && calls[i].accepted && Writes(calls[i].acts) && !stop(i) && Available(calls[i].acts)
    requires Produced(calls, i + 1, stop) == (Chunks(NonEmpty(rest)), true)
    ensures Produced(calls, i, stop) == (Chunks(NonEmpty(PiecesOf(calls[i].acts) + rest)), true)
  {
    ActsAreChunks(calls[i].acts, NonEmpty(rest));
    NonEmptyAppend(PiecesOf(calls[i].acts), rest);
  }

  lemma OneActSent(act: Act)
    ensures ActsSent([act]) == ActSent(act)
  {
    assert ActSent(act) + "" == ActSent(act);
  }

  // ----- messages that are cut off

  /** What a reader refuses for want of a last chunk: nothing at all, or chunks. */
  ghost predicate CutShort(s: string) {
    s == "" || forall body :: ReadChunks(FirstLine(s), AfterLine(s), body).Failed?
  }

  lemma ChunkCutShort(piece: string, next: string)
    requires 0 < |piece| < ULONG_MAX && CutShort(next)
    ensures CutShort(Chunk(piece) + next)
  {
    var s := Chunk(piece) + next;
    forall body ensures ReadChunks(FirstLine(s), AfterLine(s), body).Failed? {
      CutLater(piece, next, body);
    }
  }

  lemma CutLater(piece: string, next: string, body: string)
    requires 0 < |piece| < ULONG_MAX
    requires next == "" || ReadChunks(FirstLine(next), AfterLine(next), body + piece).Failed?
    ensures var s := Chunk(piece) + next; ReadChunks(FirstLine(s), AfterLine(s), body).Failed?
  {
    assert Chunk(piece) + next == ToHex(|piece|) + CRLF + (piece + CRLF + next);
    NoCrInHex(|piece|);
    LineOf(ToHex(|piece|), piece + CRLF + next);
    if next == "" {
      CutOff(piece, body);
    } else {
      ReadOneChunk(piece, next, body);
    }
  }

  lemma CutOff(piece: string, body: string)
    requires 0 < |piece| < ULONG_MAX
    ensures ReadChunks(ToHex(|piece|) + CRLF, piece + CRLF + "", body).Failed?
  {
    HexRoundTrip(|piece|);
    var s := piece + CRLF + "";
    assert s[|piece|..] == "" + CRLF + "";
    LineOf("", "");
  }

  lemma {:induction false} ActsCutShort(acts: seq<Act>, next: string)
    requires Writes(acts) && CutShort(next)
    ensures CutShort(ActsSent(acts) + next)
    decreases |acts|
  {
    if acts == [] {
      assert ActsSent(acts) + next == next;
    } else {
      var piece := acts[0].piece;
      ActsCutShort(acts[1..], next);
      if piece == "" {
        assert ActsSent(acts) == ActsSent(acts[1..]);
      } else {
        AppendAssoc(Chunk(piece), ActsSent(acts[1..]), next);
        ChunkCutShort(piece, ActsSent(acts[1..]) + next);
      }
    }
  }

  lemma {:induction false} NotCompleted(calls: seq<ProviderCall>, i: nat, stop: nat -> bool)
    requires i <= |calls| && Writing(calls) && !Completes(calls, i, stop)
    ensures CutShort(Produced(calls, i, stop).0)
    decreases |calls| - i
  {
    if stop(i) {
      StopsAt(calls, i, stop);
    } else {
      Incomplete(calls, i, stop);
      if Available(calls[i].acts) { NotCompleted(calls, i + 1, stop); }
      CallCutShort(calls, i, stop, Produced(calls, i + 1, stop).0);
    }
  }

  lemma StopsAt(calls: seq<ProviderCall>, i: nat, stop: nat -> bool)
    requires i <= |calls| && stop(i)
    ensures CutShort(Produced(calls, i, stop).0)
  {
  }

  lemma Incomplete(calls: seq<ProviderCall>, i: nat, stop: nat -> bool)
    requires i <= |calls| && !Completes(calls, i, stop) && !stop(i)
    ensures i < |calls| && (Available(calls[i].acts) ==> !Completes(calls, i + 1, stop))
  {
  }

  lemma CallCutShort(calls: seq<ProviderCall>, i: nat, stop: nat -> bool, next: string)
    requires i < |calls| && calls[i].accepted && Writes(calls[i].acts) && !stop(i)
    requires next == Produced(calls, i + 1, stop).0 && (Available(calls[i].acts) ==> CutShort(next))
    ensures CutShort(Produced(calls, i, stop).0)
  {
    var acts := calls[i].acts;
    if Available(acts) {
      ActsCutShort(acts, next);
    } else {
      ActsCutShort(acts, "");
      assert ActsSent(acts) + "" == ActsSent(acts);
    }
  }

  /** The exact condition of the law. For a provider that never refuses and hands over
      pieces below ULONG_MAX, in any calls: the reader gets back what was handed over
      if and only if the server does not shut down in between and no call ends with
      an empty piece; otherwise it refuses, though the writer reports success. */
  lemma ArrivesExactly(calls: seq<ProviderCall>, stop: nat -> bool)
    requires Writing(calls)
    ensures Produced(calls, 0, stop).1
    ensures var r := ReadContent(Produced(calls, 0, stop).0);
      if Completes(calls, 0, stop) then r == Done(Concat(Pieces(calls, 0)), [], "") else r.Failed?
  {
    NeverRefused(calls, 0, stop);
    if Completes(calls, 0, stop) {
      var pieces := Pieces(calls, 0);
      GroupingDoesNotMatter(calls, 0, stop);
      WritingSmall(calls, 0);
      NonEmptySmall(pieces);
      NonEmptyConcat(pieces);
      RoundTrip(NonEmpty(pieces), "");
      assert Chunks(NonEmpty(pieces)) + "" == Chunks(NonEmpty(pieces));
    } else {
      NotCompleted(calls, 0, stop);
    }
  }

  lemma {:induction false} NeverRefused(calls: seq<ProviderCall>, i: nat, stop: nat -> bool)
    requires i <= |calls| && Writing(calls)
    ensures Produced(calls, i, stop).1
    decreases |calls| - i
  {
    if i < |calls| {
      NeverRefused(calls, i + 1, stop);
    }
  }

  /** The law through the streams: handed over in any calls, written in any fragments
      and read in any fragments. */
  method Transfer(calls: seq<ProviderCall>, stop: nat -> bool, sender: WriteStream, answers: nat -> Answer)
    returns (ok: bool, body: string)
    requires Writing(calls)
    requires sender.written == "" && sender.Progresses() && sender.NeverFails()
    requires forall k :: answers(k).Deliver?
    modifies sender
    ensures ok == Completes(calls, 0, stop)
    ensures ok ==> body == Concat(Pieces(calls, 0))
  {
    ok := WriteContentChunked(sender, calls, stop);
    ArrivesExactly(calls, stop);
    assert sender.written == Produced(calls, 0, stop).0;
    var strm := new SocketStream(answers, sender.written);
    var trailers;
    ok, body, trailers := ReadContentChunked(strm);
  }

  /** A size of ULONG_MAX or more is refused: the bound of the law is exact. */
  lemma TooLong(n: nat, s: string, body: string)
    requires n > 0
    ensures ReadChunks(ToHex(n) + CRLF, s, body).Failed? <== n >= ULONG_MAX
  {
    HexRoundTrip(n);
  }
}
