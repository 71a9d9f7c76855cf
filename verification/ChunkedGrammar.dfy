/** What the chunked reader of httplib makes of messages that its own writer would not
    produce (Httplib/httplib.h; RFC 9112 section 7.1): sizes in any spelling, chunk
    extensions and trailers. */
module ChunkedGrammar {
  import opened Prelude
  import opened HttpText
  import opened TextLaws
  import opened Streams
  import opened ChunkedCoding

  // ----- numbers

  predicate HexText(s: string) { forall i :: 0 <= i < |s| ==> HexValue(s[i]) >= 0 }

  /** The number that hexadecimal digits denote, leading zeros included. */
  function HexNumber(s: string): nat
    requires HexText(s)
  {
    if s == "" then 0 else 16 * HexNumber(s[..|s| - 1]) + HexValue(s[|s| - 1])
  }

  lemma {:induction false} DigitsIn(digits: string, rest: string, k: nat)
    requires HexText(digits) && (rest != "" ==> HexValue(rest[0]) < 0) && k <= |digits|
    ensures HexDigitCount(digits + rest) == |digits|
    ensures DigitsValue(digits + rest, k) == HexNumber(digits[..k])
    decreases k
  {
    var s := digits + rest;
    DigitsAre(s, |digits|);
    if k > 0 {
      DigitsIn(digits, rest, k - 1);
      assert digits[..k][..k - 1] == digits[..k - 1] && s[k - 1] == digits[..k][k - 1];
    }
  }

  /** Behind the digits is no further digit, and a single 0 is no prefix 0x. */
  predicate EndsNumber(digits: string, rest: string) {
    && (rest != "" ==> HexValue(rest[0]) < 0)
    && !(digits == "0" && |rest| >= 2 && (rest[0] == 'x' || rest[0] == 'X') && HexValue(rest[1]) >= 0)
  }

  /** What strtoul makes of white space, a sign, a prefix, digits and anything else. */
  lemma NumberMeans(w: string, sign: string, prefix: string, digits: string, rest: string)
    requires White(w) && (sign == "" || sign == "+" || sign == "-")
    requires prefix == "" || prefix == "0x" || prefix == "0X"
    requires digits != "" && HexText(digits) && (rest != "" ==> HexValue(rest[0]) < 0)
    requires prefix == "" ==> EndsNumber(digits, rest)
    ensures var n := HexNumber(digits);
      StrToUl(w + (sign + (prefix + (digits + rest)))) ==
        (true, if n > ULONG_MAX then ULONG_MAX else if sign == "-" && n > 0 then ULONG_MAX + 1 - n else n)
  {
    var u := prefix + (digits + rest);
    SignVisible(sign, prefix, digits, rest);
    SkipWhite(w, sign + u);
    assert sign != "" ==> (sign + u)[0] == sign[0] && (sign + u)[1..] == u;
    assert sign == "" ==> sign + u == u;
    PrefixMeans(prefix, digits, rest);
    DigitsIn(digits, rest, |digits|);
    assert digits[..|digits|] == digits;
    SignMeans(w + (sign + u), sign + u, sign, u, digits + rest, |digits|);
  }

  lemma SignVisible(sign: string, prefix: string, digits: string, rest: string)
    requires (sign == "" || sign == "+" || sign == "-") && (prefix == "" || prefix == "0x" || prefix == "0X")
    requires digits != "" && HexText(digits)
    ensures Visible(sign + (prefix + (digits + rest)))
    ensures var u := prefix + (digits + rest); u != "" && u[0] != '+' && u[0] != '-'
  {
    var u := prefix + (digits + rest);
    assert u[0] == if prefix == "" then digits[0] else prefix[0];
    assert HexValue(u[0]) >= 0;
    assert (sign + u)[0] == if sign == "" then u[0] else sign[0];
  }

  /** What is left behind the prefix 0x. */
  function BehindPrefix(u: string): string {
    if |u| >= 3 && u[0] == '0' && u[1] in ['x', 'X'] && HexValue(u[2]) >= 0 then u[2..] else u
  }

  lemma PrefixMeans(prefix: string, digits: string, rest: string)
    requires prefix == "" || prefix == "0x" || prefix == "0X"
    requires digits != "" && HexText(digits) && (rest != "" ==> HexValue(rest[0]) < 0)
    requires prefix == "" ==> EndsNumber(digits, rest)
    ensures BehindPrefix(prefix + (digits + rest)) == digits + rest
  {
    var v := digits + rest;
    var u := prefix + v;
    if prefix == "" {
      assert u == v;
      assert |digits| > 1 ==> u[1] == digits[1] && HexValue(u[1]) >= 0;
      assert |digits| == 1 && |rest| > 0 ==> u[1] == rest[0];
      assert |digits| == 1 && |rest| > 1 ==> u[2] == rest[1];
      assert |digits| == 1 ==> digits == [u[0]];
    } else {
      assert u[0] == prefix[0] && u[1] == prefix[1] && u[2] == digits[0] && u[2..] == v;
    }
  }

  lemma SignMeans(s: string, t: string, sign: string, u: string, v: string, n: nat)
    requires t == SkipSpace(s) && t == sign + u && (sign == "" || sign == "+" || sign == "-")
    requires u != "" && u[0] != '+' && u[0] != '-' && v == BehindPrefix(u)
    requires n == HexDigitCount(v) > 0
    ensures var value := DigitsValue(v, n);
      StrToUl(s) ==
        (true, if value > ULONG_MAX then ULONG_MAX else if sign == "-" && value > 0 then ULONG_MAX + 1 - value else value)
  {
    if sign == "" {
      assert t == u;
    } else {
      assert t[0] == sign[0] && t[1..] == u;
    }
  }

  /** Without a digit there is no number. */
  lemma NoNumber(w: string, sign: string, rest: string)
    requires White(w) && (sign == "" || sign == "+" || sign == "-")
    requires rest != "" ==> HexValue(rest[0]) < 0
    requires sign == "" ==> Visible(rest) && (rest != "" ==> rest[0] != '+' && rest[0] != '-')
    ensures StrToUl(w + (sign + rest)) == (false, 0)
  {
    assert sign != "" ==> (sign + rest)[0] == sign[0] && (sign + rest)[1..] == rest;
    assert sign == "" ==> sign + rest == rest;
    SkipWhite(w, sign + rest);
  }

  // ----- messages

  /** A chunk-size line: the size in hexadecimal digits, and a chunk extension. */
  datatype SizeLine = SizeLine(digits: string, ext: string)

  datatype Sized = Sized(line: SizeLine, data: string)

  /** Chunks, the last one and the trailer lines. */
  datatype Message = Message(chunks: seq<Sized>, last: SizeLine, trailers: seq<string>)

  predicate SizeOk(line: SizeLine, size: nat) {
    && line.digits != "" && HexText(line.digits) && HexNumber(line.digits) == size
    && EndsNumber(line.digits, line.ext + CRLF) && NoCrlf(line.ext)
  }

  /** There is no CRLF in the text; CR and LF alone may be. */
  predicate NoCrlf(s: string) { forall i :: 0 <= i < |s| - 1 ==> !(s[i] == '\r' && s[i + 1] == '\n') }

  predicate TrailerOk(t: string) { t != "" && NoCrlf(t) && |t| + 2 <= 8192 }

  predicate MessageOk(m: Message) {
    && (forall i :: 0 <= i < |m.chunks| ==>
          0 < |m.chunks[i].data| < ULONG_MAX && SizeOk(m.chunks[i].line, |m.chunks[i].data|))
    && SizeOk(m.last, 0)
    && (forall i :: 0 <= i < |m.trailers| ==> TrailerOk(m.trailers[i]))
  }

  function SizeText(line: SizeLine): string { line.digits + line.ext + CRLF }

  function ChunksText(chunks: seq<Sized>): string {
    if chunks == [] then "" else SizeText(chunks[0].line) + (chunks[0].data + CRLF) + ChunksText(chunks[1..])
  }

  function TrailersText(trailers: seq<string>): string {
    if trailers == [] then "" else trailers[0] + CRLF + TrailersText(trailers[1..])
  }

  function MessageText(m: Message): string {
    ChunksText(m.chunks) + SizeText(m.last) + TrailersText(m.trailers) + CRLF
  }

  function DataOf(chunks: seq<Sized>): string {
    if chunks == [] then "" else chunks[0].data + DataOf(chunks[1..])
  }

  /** The trailer lines as they are read, with their line ends. */
  function WithEnds(trailers: seq<string>): seq<string> {
    if trailers == [] then [] else [trailers[0] + CRLF] + WithEnds(trailers[1..])
  }

  /** A line ends at the first CRLF, and not at a CR or LF alone. */
  lemma LineMeans(text: string, rest: string)
    requires NoCrlf(text)
    ensures FirstLine(text + CRLF + rest) == text + CRLF && AfterLine(text + CRLF + rest) == rest
  {
    var s := text + CRLF + rest;
    forall i | 0 <= i < |text| ensures !At(s, CRLF, i) {
      PairAt(s, i);
      assert s[i] == text[i];
    }
    PairAt(s, |text|);
    FindIs(s, CRLF, |text|);
    assert s[..|text| + 2] == text + CRLF;
  }

  lemma SizeReads(line: SizeLine, size: nat, rest: string)
    requires SizeOk(line, size)
    ensures StrToUl(SizeText(line)) == (true, if size > ULONG_MAX then ULONG_MAX else size)
    ensures var s := SizeText(line) + rest; s != "" && FirstLine(s) == SizeText(line) && AfterLine(s) == rest
  {
    var text := line.digits + line.ext;
    assert SizeText(line) == "" + ("" + ("" + (line.digits + (line.ext + CRLF))));
    NumberMeans("", "", "", line.digits, line.ext + CRLF);
    SizeNoCrlf(line.digits, line.ext);
    LineMeans(text, rest);
  }

  lemma SizeNoCrlf(digits: string, ext: string)
    requires HexText(digits) && NoCrlf(ext)
    ensures NoCrlf(digits + ext)
  {
    forall i | 0 <= i < |digits + ext| - 1 ensures !((digits + ext)[i] == '\r' && (digits + ext)[i + 1] == '\n') {
      if i < |digits| {
        assert HexValue(digits[i]) >= 0;
      } else {
        assert (digits + ext)[i] == ext[i - |digits|] && (digits + ext)[i + 1] == ext[i - |digits| + 1];
      }
    }
  }

  lemma {:induction false} ReadSizedChunks(chunks: seq<Sized>, next: string, body: string)
    requires forall i :: 0 <= i < |chunks| ==> 0 < |chunks[i].data| < ULONG_MAX && SizeOk(chunks[i].line, |chunks[i].data|)
    requires next != ""
    ensures var s := ChunksText(chunks) + next;
      s != "" && ReadChunks(FirstLine(s), AfterLine(s), body)
              == ReadChunks(FirstLine(next), AfterLine(next), body + DataOf(chunks))
    decreases |chunks|
  {
    if chunks == [] {
      assert ChunksText(chunks) + next == next && body + "" == body;
    } else {
      var c, more := chunks[0], ChunksText(chunks[1..]) + next;
      ReadSizedChunks(chunks[1..], next, body + c.data);
      FirstChunkApart(chunks, next, more);
      SizeReads(c.line, |c.data|, c.data + (CRLF + more));
      EmptyLineOf(more);
      ReadChunkBody(SizeText(c.line), c.data, CRLF + more, more, c.data + (CRLF + more), body);
      AppendAssoc(body, c.data, DataOf(chunks[1..]));
    }
  }

  lemma FirstChunkApart(chunks: seq<Sized>, next: string, more: string)
    requires chunks != [] && more == ChunksText(chunks[1..]) + next
    ensures ChunksText(chunks) + next == SizeText(chunks[0].line) + (chunks[0].data + (CRLF + more))
  {
    AppendAssoc(chunks[0].data, CRLF, more);
    AppendAssoc(SizeText(chunks[0].line), chunks[0].data + CRLF, more);
    AppendAssoc(SizeText(chunks[0].line) + (chunks[0].data + CRLF), ChunksText(chunks[1..]), next);
  }

  lemma {:induction false} ReadTrailerLines(trailers: seq<string>, tail: string, body: string, before: seq<string>)
    requires forall i :: 0 <= i < |trailers| ==> TrailerOk(trailers[i])
    ensures var s := TrailersText(trailers) + (CRLF + tail);
      s != "" && TrailerLines(FirstLine(s), AfterLine(s), body, before) == Done(body, before + WithEnds(trailers), tail)
    decreases |trailers|
  {
    if trailers == [] {
      assert TrailersText(trailers) + (CRLF + tail) == CRLF + tail && before + [] == before;
      EmptyLineOf(tail);
    } else {
      var t, more := trailers[0], TrailersText(trailers[1..]) + (CRLF + tail);
      ReadTrailerLines(trailers[1..], tail, body, before + [t + CRLF]);
      AppendAssoc(t + CRLF, TrailersText(trailers[1..]), CRLF + tail);
      LineMeans(t, more);
      LineNotEmpty(t);
      AppendAssoc(before, [t + CRLF], WithEnds(trailers[1..]));
    }
  }

  lemma LineNotEmpty(t: string)
    requires t != "" && NoCrlf(t)
    ensures CString(t + CRLF) != CRLF
  {
    var line := t + CRLF;
    CStringBegins(line);
    assert line[0] == t[0] && line[1] == if |t| > 1 then t[1] else '\r';
  }

  lemma CStringBegins(line: string)
    ensures CString(line) == CRLF ==> |line| >= 2 && line[0] == '\r' && line[1] == '\n'
  {
    assert CString(line) == CRLF ==> CString(line)[0] == '\r' && CString(line)[1] == '\n';
  }

  /** The reader takes every message of the grammar: sizes with leading zeros and in
      either case, any extensions, any trailers that are not too long. */
  lemma ReadMessage(m: Message, tail: string)
    requires MessageOk(m)
    ensures ReadContent(MessageText(m) + tail) == Done(DataOf(m.chunks), WithEnds(m.trailers), tail)
  {
    var trailers := TrailersText(m.trailers) + (CRLF + tail);
    var next := SizeText(m.last) + trailers;
    MessageApart(m, tail, trailers, next);
    SizeReads(m.last, 0, trailers);
    ReadSizedChunks(m.chunks, next, "");
    assert "" + DataOf(m.chunks) == DataOf(m.chunks) && [] + WithEnds(m.trailers) == WithEnds(m.trailers);
    ReadTrailerLines(m.trailers, tail, DataOf(m.chunks), []);
  }

  lemma MessageApart(m: Message, tail: string, trailers: string, next: string)
    requires trailers == TrailersText(m.trailers) + (CRLF + tail) && next == SizeText(m.last) + trailers
    ensures MessageText(m) + tail == ChunksText(m.chunks) + next
  {
    AppendAssoc(ChunksText(m.chunks) + SizeText(m.last) + TrailersText(m.trailers), CRLF, tail);
    AppendAssoc(ChunksText(m.chunks) + SizeText(m.last), TrailersText(m.trailers), CRLF + tail);
    AppendAssoc(ChunksText(m.chunks), SizeText(m.last), trailers);
  }

  // ----- what is refused

  /** The data of a chunk must be followed by a line end. */
  lemma DataUnended(line: SizeLine, data: string, behind: string, body: string)
    requires 0 < |data| < ULONG_MAX && SizeOk(line, |data|) && !(CRLF <= behind)
    ensures ReadChunks(SizeText(line), data + behind, body).Failed?
  {
    SizeReads(line, |data|, "");
    assert (data + behind)[|data|..] == behind;
    CStringBegins(FirstLine(behind));
    assert |FirstLine(behind)| >= 2 ==> FirstLine(behind)[0] == behind[0] && FirstLine(behind)[1] == behind[1];
    BeginsWithCrlf(behind);
  }

  lemma BeginsWithCrlf(s: string)
    ensures |s| >= 2 && s[0] == '\r' && s[1] == '\n' ==> CRLF <= s
  {
  }

  /** A trailer line that is too long is refused. */
  lemma TrailerTooLong(t: string, rest: string, body: string)
    requires t != "" && NoCrlf(t) && |t| + 2 > 8192
    ensures ReadTrailers(t + CRLF + rest, body).Failed?
  {
    LineMeans(t, rest);
    LineNotEmpty(t);
  }

  /** The stream may end behind the last chunk: the empty line may be missing, if there
      are no trailers, and is missed if there are. */
  lemma EndMissing(trailers: seq<string>, body: string)
    requires forall i :: 0 <= i < |trailers| ==> TrailerOk(trailers[i])
    ensures ReadTrailers(TrailersText(trailers), body) == if trailers == [] then Done(body, [], "") else Failed
  {
    if trailers != [] {
      TrailersUnended(trailers, body, []);
    }
  }

  lemma {:induction false} TrailersUnended(trailers: seq<string>, body: string, before: seq<string>)
    requires trailers != [] && forall i :: 0 <= i < |trailers| ==> TrailerOk(trailers[i])
    ensures var s := TrailersText(trailers); s != "" && TrailerLines(FirstLine(s), AfterLine(s), body, before).Failed?
    decreases |trailers|
  {
    LineMeans(trailers[0], TrailersText(trailers[1..]));
    LineNotEmpty(trailers[0]);
    if |trailers| > 1 {
      TrailersUnended(trailers[1..], body, before + [trailers[0] + CRLF]);
    }
  }

  // ----- the writer

  /** From call i on, the loop comes to call k: the server does not shut down on the way,
      and each call before it is accepted and does nothing or ends with a piece that is
      not empty; what it does besides, even calling done, does not matter. */
  ghost predicate Reached(calls: seq<ProviderCall>, i: nat, k: nat, stop: nat -> bool)
    requires k <= |calls|
  {
    && i <= k && (forall j :: i <= j < k ==> !stop(j))
    && forall j :: i <= j < k ==> calls[j].accepted && EndsInPiece(calls[j].acts)
  }

  /** What the calls from i to k send, without k. */
  function SentBy(calls: seq<ProviderCall>, i: nat, k: nat): string
    requires i <= k <= |calls|
    decreases k - i
  {
    if i == k then "" else ActsSent(calls[i].acts) + SentBy(calls, i + 1, k)
  }

  /** What is produced when the loop ends at call k: in front of it when the server shuts
      down; behind it when the provider refuses, which alone is reported as a failure, or
      ends the call with an empty piece or with done; and behind the last call, with the
      last chunk. */
  ghost predicate Ended(calls: seq<ProviderCall>, i: nat, k: nat, stop: nat -> bool, r: (string, bool))
    requires i <= k <= |calls|
  {
    && (stop(k) ==> r == (SentBy(calls, i, k), true))
    && (!stop(k) && k < |calls| && (!calls[k].accepted || !EndsInPiece(calls[k].acts)) ==>
          r == (SentBy(calls, i, k + 1), calls[k].accepted))
    && (!stop(k) && k == |calls| ==> r == (SentBy(calls, i, k) + LAST_CHUNK, true))
  }

  /** Where the writer ends, and with what. */
  lemma {:induction false} WriterEnds(calls: seq<ProviderCall>, i: nat, k: nat, stop: nat -> bool)
    requires i <= k <= |calls| && Reached(calls, i, k, stop)
    ensures Ended(calls, i, k, stop, Produced(calls, i, stop))
    decreases k - i
  {
    if i < k {
      var next := i + 1;
      ReachedBehind(calls, i, next, k, stop);
      WriterGoesOn(calls, i, next, stop);
      WriterEnds(calls, next, k, stop);
      EndedBefore(calls, i, next, k, stop, Produced(calls, next, stop), Produced(calls, i, stop));
    } else {
      EndsHere(calls, k, stop);
    }
  }

  lemma ReachedBehind(calls: seq<ProviderCall>, i: nat, next: nat, k: nat, stop: nat -> bool)
    requires next == i + 1 <= k <= |calls| && Reached(calls, i, k, stop)
    ensures Reached(calls, next, k, stop) && !stop(i) && calls[i].accepted && EndsInPiece(calls[i].acts)
  {
  }

  lemma EndedBefore(calls: seq<ProviderCall>, i: nat, next: nat, k: nat, stop: nat -> bool,
      r: (string, bool), all: (string, bool))
    requires next == i + 1 <= k <= |calls| && Ended(calls, next, k, stop, r)
    requires all == (ActsSent(calls[i].acts) + r.0, r.1)
    ensures Ended(calls, i, k, stop, all)
  {
    AppendAssoc(ActsSent(calls[i].acts), SentBy(calls, next, k), LAST_CHUNK);
  }

  lemma WriterGoesOn(calls: seq<ProviderCall>, i: nat, next: nat, stop: nat -> bool)
    requires i < |calls| && next == i + 1 && !stop(i) && calls[i].accepted && EndsInPiece(calls[i].acts)
    ensures var rest := Produced(calls, next, stop);
      Produced(calls, i, stop) == (ActsSent(calls[i].acts) + rest.0, rest.1)
  {
    AvailableMeans(calls[i].acts);
  }

  /** There is such a call, or the end. */
  lemma {:induction false} WriterReaches(calls: seq<ProviderCall>, i: nat, stop: nat -> bool) returns (k: nat)
    requires i <= |calls|
    ensures i <= k <= |calls| && Reached(calls, i, k, stop)
    ensures stop(k) || k == |calls| || !calls[k].accepted || !EndsInPiece(calls[k].acts)
    decreases |calls| - i
  {
    k := i;
    if i < |calls| && !stop(i) && calls[i].accepted && EndsInPiece(calls[i].acts) {
      k := WriterReaches(calls, i + 1, stop);
    }
  }

  lemma EndsHere(calls: seq<ProviderCall>, k: nat, stop: nat -> bool)
    requires k <= |calls|
    ensures Ended(calls, k, k, stop, Produced(calls, k, stop))
  {
    if k < |calls| {
      AvailableMeans(calls[k].acts);
      assert SentBy(calls, k, k + 1) == ActsSent(calls[k].acts) + "" == ActsSent(calls[k].acts);
    } else {
      OneActSent(Finish);
      assert "" + LAST_CHUNK == LAST_CHUNK;
    }
  }

  /** A provider may call done itself: its last call, with what it still writes and then
      done, completes the message as well. */
  lemma DoneCompletes(acts: seq<Act>, stop: nat -> bool, tail: string)
    requires Writes(acts) && !stop(0)
    ensures var calls := [ProviderCall(acts + [Finish], true)];
      && Produced(calls, 0, stop).1
      && ReadContent(Produced(calls, 0, stop).0 + tail) == Done(Concat(PiecesOf(acts)), [], tail)
  {
    var calls := [ProviderCall(acts + [Finish], true)];
    var pieces := PiecesOf(acts);
    SentSnoc(acts, Finish);
    ActsAreChunks(acts, []);
    assert NonEmpty(pieces) + [] == NonEmpty(pieces);
    WritesSmall(acts);
    NonEmptySmall(pieces);
    NonEmptyConcat(pieces);
    RoundTrip(NonEmpty(pieces), tail);
    assert Produced(calls, 0, stop) == (ActsSent(acts + [Finish]), true);
  }

  lemma {:induction false} SentSnoc(acts: seq<Act>, act: Act)
    ensures ActsSent(acts + [act]) == ActsSent(acts) + ActSent(act)
  {
    if acts == [] {
      assert acts + [act] == [act];
      OneActSent(act);
      assert "" + ActSent(act) == ActSent(act);
    } else {
      assert (acts + [act])[0] == acts[0] && (acts + [act])[1..] == acts[1..] + [act];
      SentSnoc(acts[1..], act);
      AppendAssoc(ActSent(acts[0]), ActsSent(acts[1..]), ActSent(act));
    }
  }
}
