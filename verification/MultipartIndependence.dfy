/** The multipart parser and the chunks in which its input arrives: the check of the
    source on the length of header lines looks at what happens to be buffered. When
    the chunks do not matter, and when they do. */
module MultipartIndependence {
  import opened Prelude
  import opened HttpText
  import opened Multipart
  import opened MultipartChunks

  /** The parser waits: nothing is buffered, or the next pass would stop at once and
      change nothing. */
  predicate Waits(p: Parser)
    requires p.state <= 4
  {
    p.view == "" || Step(p, AtEntry) == Stop(Ok(p))
  }

  /** The closing delimiter is complete in what is buffered. */
  predicate Closes(p: Parser)
    requires p.state <= 4
  {
    var r := Drive(p, PerLine);
    r.Ok? && r.p.valid
  }

  /** Nothing is refused when each complete header line must be shorter than the
      limit, and a header line that is still incomplete does not exceed it. */
  predicate Fits(r: Result) { r.Ok? && (r.p.state == 2 ==> |r.p.view| <= HEADER_MAX) }

  /** Header lines that the check of every line lets through are the same to the
      check of the source, which looks at none of them. */
  lemma {:induction false} HeadersSame(view: string, file: FileInfo)
    requires !ParseHeaders(view, file, PerLine).Refused?
    ensures ParseHeaders(view, file, AtEntry) == ParseHeaders(view, file, PerLine)
    decreases |view|
  {
    HeadersUnfold(view, file, AtEntry);
    HeadersUnfold(view, file, PerLine);
    var pos := Find(view, CRLF);
    if 0 < pos < |view| {
      HeadersSame(view[pos + |CRLF|..], ParseLine(view[..pos], file).value);
    }
  }

  /** The closing delimiter discards whatever else is buffered. */
  lemma {:induction false} ClosingDiscards(p: Parser, y: string)
    requires 1 <= p.state <= 4 && !p.valid && Closes(p)
    ensures Drive(WithMore(p, y), PerLine) == Drive(p, PerLine)
    decreases |p.view|, if p.state == 1 then 1 else 0
  {
    assert p.view != "";
    if Step(p, PerLine).Stop? {
      StopExtend(p, y, PerLine);
    } else {
      DriveAgain(p, PerLine);
      var p' := Step(p, PerLine).p;
      StepExtend(p, y, PerLine);
      if !p'.valid {
        DriveAgain(WithMore(p, y), PerLine);
        ClosingDiscards(p', y);
      }
    }
  }

  /** A buffer whose first line is not complete is short if the line, when
      complete, will be. */
  lemma ShortStart(view: string, y: string)
    requires Find(view + y, CRLF) < HEADER_MAX
    ensures Find(view, CRLF) <= HEADER_MAX
  {
    if Find(view, CRLF) == |view| {
      FindAppendNone(view, y, CRLF);
    } else {
      FindAppend(view, y, CRLF);
    }
  }

  /** In the header state, if all is well when y is there, the source's check lets
      the parser through now. */
  lemma SourceCheckPasses(p: Parser, y: string)
    requires p.state == 2 && Fits(Drive(WithMore(p, y), PerLine))
    ensures Find(p.view, CRLF) <= HEADER_MAX
  {
    var view := p.view + y;
    if view != "" {
      DriveUnfold(WithMore(p, y), PerLine);
      HeadersUnfold(view, p.file, PerLine);
      if Find(view, CRLF) < |view| {
        ShortStart(p.view, y);
      }
    }
  }

  /** If all is well when y has arrived, nothing is refused now, and the source's
      check does not refuse anything either. */
  lemma {:induction false} WillFit(p: Parser, y: string)
    requires 1 <= p.state <= 4 && !p.valid
    requires Fits(Drive(WithMore(p, y), PerLine))
    ensures Fits(Drive(p, PerLine)) && Drive(p, AtEntry) == Drive(p, PerLine)
    decreases |p.view|, if p.state == 1 then 1 else 0
  {
    if p.view != "" {
      StepExtend(p, y, PerLine);
      if p.state == 2 {
        SourceCheckPasses(p, y);
        if !ParseHeaders(p.view, p.file, PerLine).Refused? {
          HeadersSame(p.view, p.file);
        }
      }
      assert Step(p, AtEntry) == Step(p, PerLine);
      if Step(p, PerLine).Again? {
        DriveAgain(p, PerLine);
        DriveAgain(p, AtEntry);
        var p' := Step(p, PerLine).p;
        if !p'.valid {
          DriveAgain(WithMore(p, y), PerLine);
          WillFit(p', y);
        }
      } else {
        StoppedFits(p, y);
      }
    }
  }

  lemma StoppedFits(p: Parser, y: string)
    requires 1 <= p.state <= 4 && !p.valid && p.view != "" && Step(p, PerLine).Stop?
    requires Fits(Drive(WithMore(p, y), PerLine))
    ensures Fits(Drive(p, PerLine))
  {
    StepExtend(p, y, PerLine);
    DriveUnfold(p, PerLine);
    DriveUnfold(WithMore(p, y), PerLine);
    StopExtend(p, y, PerLine);
    var q := Step(p, PerLine).r.p;
    if q.state == 2 {
      HeadersLeft(p.view, p.file);
      SourceCheckPasses(q, y);
    }
  }

  /** What is left when no more header line is complete. */
  lemma {:induction false} HeadersLeft(view: string, file: FileInfo)
    ensures var r := ParseHeaders(view, file, PerLine); r.More? ==> Find(r.view, CRLF) == |r.view|
    decreases |view|
  {
    HeadersUnfold(view, file, PerLine);
    var pos := Find(view, CRLF);
    if 0 < pos < |view| && pos < HEADER_MAX && ParseLine(view[..pos], file).Some? {
      HeadersLeft(view[pos + |CRLF|..], ParseLine(view[..pos], file).value);
    }
  }

  /** No chunk but the last completes the closing delimiter. */
  ghost predicate OpenBefore(p: Parser, chunks: seq<string>)
    requires p.state <= 4
  {
    forall k :: 0 <= k < |chunks| ==> !Closes(WithMore(p, Concat(chunks[..k])))
  }

  /** What waits under the source's check waits under the check of every line. */
  lemma WaitsPerLine(p: Parser)
    requires 1 <= p.state <= 4 && Waits(p)
    ensures Drive(p, PerLine) == Ok(p) && Fits(Ok(p))
  {
    if p.view != "" && p.state == 2 {
      HeadersUnfold(p.view, p.file, AtEntry);
      HeadersUnfold(p.view, p.file, PerLine);
    }
  }

  /** If all is well with the whole text, the chunks do not matter: none is refused,
      and the parser ends as if it had all come at once. */
  lemma {:induction false} ChunksAgree(p: Parser, chunks: seq<string>)
    requires 1 <= p.state <= 4 && !p.valid && Waits(p) && OpenBefore(p, chunks)
    requires Fits(Drive(WithMore(p, Concat(chunks)), PerLine))
    ensures FeedAll(p, chunks, AtEntry) == Drive(WithMore(p, Concat(chunks)), PerLine)
    decreases |chunks|
  {
    if chunks == [] {
      WaitsPerLine(p);
      assert WithMore(p, "") == p;
    } else {
      var init, last := chunks[..|chunks| - 1], chunks[|chunks| - 1];
      var p1 := WithMore(p, Concat(init));
      FeedAllSnoc(p, chunks, AtEntry);
      ConcatSnoc(chunks);
      assert WithMore(p1, last) == WithMore(p, Concat(chunks));
      assert !Closes(WithMore(p, Concat(chunks[..|init|])));
      WillFit(p1, last);
      OpenInit(p, chunks);
      ChunksAgree(p, init);
      LastChunk(p1, last);
    }
  }

  lemma OpenInit(p: Parser, chunks: seq<string>)
    requires p.state <= 4 && chunks != [] && OpenBefore(p, chunks)
    ensures OpenBefore(p, chunks[..|chunks| - 1])
  {
    var init := chunks[..|chunks| - 1];
    forall k | 0 <= k < |init| ensures !Closes(WithMore(p, Concat(init[..k]))) {
      assert init[..k] == chunks[..k];
    }
  }

  lemma LastChunk(p: Parser, last: string)
    requires 1 <= p.state <= 4 && !p.valid && Drive(p, PerLine).Ok? && !Closes(p)
    requires Fits(Drive(WithMore(p, last), PerLine))
    ensures Feed(Drive(p, PerLine).p, last, AtEntry) == Drive(WithMore(p, last), PerLine)
  {
    DriveExtend(p, last, PerLine);
    var q := WithMore(Drive(p, PerLine).p, last);
    assert WithMore(q, "") == q;
    WillFit(q, "");
  }

  // ----- one byte at a time

  function Bytes(w: string): seq<string> {
    if w == "" then [] else Bytes(w[..|w| - 1]) + [[w[|w| - 1]]]
  }

  lemma {:induction false} BytesConcat(w: string)
    ensures Concat(Bytes(w)) == w
    decreases |w|
  {
    if w != "" {
      var x := w[..|w| - 1];
      BytesConcat(x);
      ConcatSnoc(Bytes(w));
      assert Bytes(w)[..|Bytes(w)| - 1] == Bytes(x);
      assert w == x + [w[|w| - 1]];
    }
  }

  /** One byte more for a parser that waits: if the source does not refuse it, the
      check of every line does not, and the parser waits again. */
  lemma OneByte(p: Parser, b: char)
    requires 1 <= p.state <= 4 && !p.valid && Waits(p) && Drive(WithMore(p, [b]), AtEntry).Ok?
    ensures Drive(WithMore(p, [b]), PerLine) == Drive(WithMore(p, [b]), AtEntry)
    ensures Fits(Drive(WithMore(p, [b]), PerLine)) && Waits(Drive(WithMore(p, [b]), AtEntry).p)
  {
    if p.state == 1 {
      ByteOfLine(p.(state := 2, file := NO_FILE), b);
    } else if p.state == 2 {
      ByteOfLine(p, b);
    } else if p.state == 3 {
      ByteOfBody(p, b, AtEntry);
      ByteOfBody(p, b, PerLine);
    } else {
      ByteBehind(p, b, AtEntry);
      ByteBehind(p, b, PerLine);
    }
  }

  lemma ByteOfLine(p: Parser, b: char)
    requires p.state == 2 && Waits(p) && Drive(WithMore(p, [b]), AtEntry).Ok?
    ensures Drive(WithMore(p, [b]), PerLine) == Drive(WithMore(p, [b]), AtEntry)
    ensures Fits(Drive(WithMore(p, [b]), PerLine)) && Waits(Drive(WithMore(p, [b]), AtEntry).p)
  {
    var w, pos := p.view + [b], Find(p.view + [b], CRLF);
    WaitingLine(p);
    FindAppendNone(p.view, [b], CRLF);
    HeadersUnfold(w, p.file, AtEntry);
    HeadersUnfold(w, p.file, PerLine);
    if pos < |w| {
      assert pos + |CRLF| == |w| && w[pos + |CRLF|..] == "";
    }
  }

  lemma WaitingLine(p: Parser)
    requires p.state == 2 && Waits(p)
    ensures Find(p.view, CRLF) == |p.view| <= HEADER_MAX
  {
    if p.view != "" {
      HeadersUnfold(p.view, p.file, AtEntry);
    }
  }

  lemma ByteOfBody(p: Parser, b: char, check: Check)
    requires p.state == 3 && Waits(p)
    ensures Drive(WithMore(p, [b]), check).Ok? && Waits(Drive(WithMore(p, [b]), check).p)
    ensures Drive(WithMore(p, [b]), check) == Drive(WithMore(p, [b]), AtEntry)
    ensures Drive(WithMore(p, [b]), check).p.state != 2
  {
    var d, q := CrlfDashBoundary(p.boundary), WithMore(p, [b]);
    BodyStops(p);
    BodyStops(q);
    FindAppendNone(p.view, [b], d);
    DriveBody(q, check);
    DriveBody(q, AtEntry);
    if Find(q.view, d) < |q.view| {
      BodyFinds(q, Find(q.view, d));
      assert Body(q).p.view == "";
    } else {
      BodyStops(Body(q).r.p);
      NoDelimiterLeft(q, d);
    }
  }

  lemma NoDelimiterLeft(p: Parser, d: string)
    requires p.state == 3 && d == CrlfDashBoundary(p.boundary) && Find(p.view, d) == |p.view|
    ensures Body(p).Stop? && Body(p).r.Ok? && Waits(Body(p).r.p)
  {
    BodyStops(p);
    var q := Body(p).r.p;
    if |p.view| > |d| {
      FindDrop(p.view, d, |p.view| - |d|);
    }
    BodyStops(q);
    AppendNothing(q.items);
  }

  lemma ByteBehind(p: Parser, b: char, check: Check)
    requires p.state == 4 && Waits(p)
    ensures Drive(WithMore(p, [b]), check).Ok? && Waits(Drive(WithMore(p, [b]), check).p)
    ensures Drive(WithMore(p, [b]), check) == Drive(WithMore(p, [b]), AtEntry)
    ensures Drive(WithMore(p, [b]), check).p.state != 2
  {
    var q := WithMore(p, [b]);
    if |p.view| >= |CRLF| {
      assert q.view[..2] == p.view[..2];
    }
    DriveUnfold(q, check);
    DriveUnfold(q, AtEntry);
  }

  /** No proper beginning of the text closes. */
  ghost predicate OpenThroughout(p: Parser, w: string)
    requires p.state <= 4
  {
    forall n :: 0 <= n < |w| ==> !Closes(WithMore(p, w[..n]))
  }

  lemma {:induction false} BytesDecide(p: Parser, w: string)
    requires 1 <= p.state <= 4 && !p.valid && Waits(p) && OpenThroughout(p, w)
    requires FeedAll(p, Bytes(w), AtEntry).Ok?
    ensures FeedAll(p, Bytes(w), AtEntry) == Drive(WithMore(p, w), PerLine)
    ensures Fits(Drive(WithMore(p, w), PerLine)) && Waits(FeedAll(p, Bytes(w), AtEntry).p)
    decreases |w|
  {
    if w == "" {
      WaitsPerLine(p);
      assert WithMore(p, "") == p;
    } else {
      var x, b := w[..|w| - 1], w[|w| - 1];
      FeedBytesSnoc(p, w);
      OpenShorter(p, w);
      BytesDecide(p, x);
      assert !Closes(WithMore(p, w[..|w| - 1]));
      TakeByte(p, w);
      FeedOne(Drive(WithMore(p, x), PerLine).p, [b]);
      LastByte(WithMore(p, x), b);
    }
  }

  lemma FeedBytesSnoc(p: Parser, w: string)
    requires p.state <= 4 && w != ""
    ensures FeedAll(p, Bytes(w), AtEntry) ==
      FeedOn(FeedAll(p, Bytes(w[..|w| - 1]), AtEntry), [[w[|w| - 1]]], AtEntry)
  {
    FeedAllConcat(p, Bytes(w[..|w| - 1]), [[w[|w| - 1]]], AtEntry);
  }

  lemma FeedOne(p: Parser, c: string)
    requires p.state <= 4
    ensures FeedAll(p, [c], AtEntry) == Feed(p, c, AtEntry)
  {
    assert [c][1..] == [];
  }

  lemma TakeByte(p: Parser, w: string)
    requires w != ""
    ensures WithMore(WithMore(p, w[..|w| - 1]), [w[|w| - 1]]) == WithMore(p, w)
  {
    assert p.view + w[..|w| - 1] + [w[|w| - 1]] == p.view + w;
  }

  lemma LastByte(p: Parser, b: char)
    requires 1 <= p.state <= 4 && !p.valid && Drive(p, PerLine).Ok? && !Closes(p)
    requires Waits(Drive(p, PerLine).p) && Feed(Drive(p, PerLine).p, [b], AtEntry).Ok?
    ensures Feed(Drive(p, PerLine).p, [b], AtEntry) == Drive(WithMore(p, [b]), PerLine)
    ensures Fits(Drive(WithMore(p, [b]), PerLine)) && Waits(Drive(WithMore(p, [b]), PerLine).p)
  {
    DriveExtend(p, [b], PerLine);
    OneByte(Drive(p, PerLine).p, b);
  }

  lemma OpenShorter(p: Parser, w: string)
    requires p.state <= 4 && w != "" && OpenThroughout(p, w)
    ensures OpenThroughout(p, w[..|w| - 1])
  {
    var x := w[..|w| - 1];
    forall n | 0 <= n < |x| ensures !Closes(WithMore(p, x[..n])) {
      assert x[..n] == w[..n];
    }
  }

  /** Chunk independence of the source's parser, behind the opening delimiter, for any
      text that does not close before its end. If the check of every line refuses
      nothing and a pending line is within the limit, every way of cutting the text
      gives the same state, items and buffered rest; and only then: otherwise the
      text is refused when it comes byte by byte. */
  lemma ChunksDoNotMatter(p: Parser, w: string)
    requires 1 <= p.state <= 4 && !p.valid && Waits(p) && OpenThroughout(p, w)
    ensures Fits(Drive(WithMore(p, w), PerLine)) ==>
      forall chunks :: Concat(chunks) == w ==> FeedAll(p, chunks, AtEntry) == Drive(WithMore(p, w), PerLine)
    ensures !Fits(Drive(WithMore(p, w), PerLine)) ==>
      Concat(Bytes(w)) == w && FeedAll(p, Bytes(w), AtEntry) == Fail
  {
    if Fits(Drive(WithMore(p, w), PerLine)) {
      forall chunks | Concat(chunks) == w
        ensures FeedAll(p, chunks, AtEntry) == Drive(WithMore(p, w), PerLine)
      {
        OpenInChunks(p, w, chunks);
      }
    } else {
      BytesConcat(w);
      if FeedAll(p, Bytes(w), AtEntry).Ok? {
        BytesDecide(p, w);
      }
    }
  }

  lemma {:induction false} OpenInChunks(p: Parser, w: string, chunks: seq<string>)
    requires 1 <= p.state <= 4 && !p.valid && Waits(p) && OpenThroughout(p, w) && Concat(chunks) == w
    requires Fits(Drive(WithMore(p, w), PerLine))
    ensures FeedAll(p, chunks, AtEntry) == Drive(WithMore(p, w), PerLine)
    decreases |chunks|
  {
    if chunks != [] && chunks[|chunks| - 1] == "" && Closes(WithMore(p, w)) {
      var init := chunks[..|chunks| - 1];
      ConcatSnoc(chunks);
      assert Concat(init) + "" == Concat(init);
      OpenInChunks(p, w, init);
      FeedAllSnoc(p, chunks, AtEntry);
      ClosedEmpty(WithMore(p, w));
    } else {
      forall k | 0 <= k < |chunks| ensures !Closes(WithMore(p, Concat(chunks[..k]))) {
        BeforeTheEnd(chunks, k);
        var n := |Concat(chunks[..k])|;
        assert w[..n] == Concat(chunks[..k]);
        if n == |w| {
          assert Concat(chunks[..k]) == w;
        }
      }
      ChunksAgree(p, chunks);
    }
  }

  lemma BeforeTheEnd(chunks: seq<string>, k: nat)
    requires k < |chunks|
    ensures Concat(chunks[..k]) <= Concat(chunks)
    ensures chunks[|chunks| - 1] != "" ==> |Concat(chunks[..k])| < |Concat(chunks)|
  {
    var init := chunks[..|chunks| - 1];
    ConcatSnoc(chunks);
    ConcatPrefix(init, k);
    assert init[..k] == chunks[..k];
  }

  lemma ConcatPrefix(chunks: seq<string>, k: nat)
    requires k <= |chunks|
    ensures Concat(chunks[..k]) <= Concat(chunks)
  {
    ConcatSplit(chunks, k);
  }

  /** A parser that has just seen the closing delimiter has nothing buffered. */
  lemma {:induction false} ClosedEmpty(p: Parser)
    requires 1 <= p.state <= 4 && !p.valid && Closes(p)
    ensures Drive(p, PerLine).p.view == "" && Drive(p, PerLine).p.state == 4
    decreases |p.view|, if p.state == 1 then 1 else 0
  {
    if Step(p, PerLine).Stop? {
      StopExtend(p, "", PerLine);
    } else {
      DriveAgain(p, PerLine);
      var p' := Step(p, PerLine).p;
      if !p'.valid {
        ClosedEmpty(p');
      }
    }
  }

  lemma {:induction false} ConcatSplit(chunks: seq<string>, k: nat)
    requires k <= |chunks|
    ensures Concat(chunks) == Concat(chunks[..k]) + Concat(chunks[k..])
  {
    if k > 0 {
      assert chunks[..k][1..] == chunks[1..][..k - 1] && chunks[k..] == chunks[1..][k - 1..];
      ConcatSplit(chunks[1..], k - 1);
    } else {
      assert chunks[0..] == chunks;
    }
  }

  // ----- that they can matter

  /** Behind the opening delimiter, an accepted line that is short and then one that
      is too long: in one chunk both go through, cut between the lines the second
      is refused. */
  lemma CutDecides(p: Parser, a: string, b: string)
    requires p.state == 2 && p.view == "" && a != "" && b != "" && '\r' !in a && '\r' !in b
    requires |a| <= HEADER_MAX < |b|
    requires ParseLine(a, p.file) == Some(p.file) && ParseLine(b, p.file) == Some(p.file)
    ensures FeedAll(p, [(a + CRLF) + (b + CRLF)], AtEntry) == Ok(p)
    ensures FeedAll(p, [a + CRLF, b + CRLF], AtEntry) == Fail
  {
    LineAlone(p, a);
    LineAlone(p, b);
    LineFound(a, b + CRLF);
    HeadersUnfold((a + CRLF) + (b + CRLF), p.file, AtEntry);
    LinesPass(p, (a + CRLF) + (b + CRLF));
    LinesPass(p, a + CRLF);
    LinesPass(p, b + CRLF);
    assert [a + CRLF] + [b + CRLF] == [a + CRLF, b + CRLF];
    FeedAllConcat(p, [a + CRLF], [b + CRLF], AtEntry);
  }

  lemma LinesPass(p: Parser, lines: string)
    requires p.state == 2 && p.view == "" && lines != ""
    requires ParseHeaders(lines, p.file, AtEntry) == More("", p.file)
    ensures FeedAll(p, [lines], AtEntry) == if Find(lines, CRLF) > HEADER_MAX then Fail else Ok(p)
  {
    FeedOne(p, lines);
    assert WithMore(p, lines) == p.(view := lines);
  }

  lemma LineAlone(p: Parser, line: string)
    requires line != "" && '\r' !in line && ParseLine(line, p.file) == Some(p.file)
    ensures Find(line + CRLF, CRLF) == |line| < |line + CRLF|
    ensures ParseHeaders(line + CRLF, p.file, AtEntry) == More("", p.file)
  {
    LineFound(line, "");
    assert line + CRLF + "" == line + CRLF;
    HeadersUnfold(line + CRLF, p.file, AtEntry);
    HeadersUnfold("", p.file, AtEntry);
  }

  /** Header lines that are accepted and say nothing about the item. */
  lemma PlainLine(value: string, file: FileInfo)
    requires value != "" && Trimmed(value) && '%' !in value && !HasBreak(value)
    ensures ParseLine("A: " + value, file) == Some(file) && '\r' !in "A: " + value
  {
    var line := "A: " + value;
    assert line == "A" + ": " + value;
    DecodePlain(value, false);
    PlainHeader("A", value);
    OtherLine(line, file);
  }

  lemma OtherLine(line: string, file: FileInfo)
    requires IsHeader(line) && line != "" && line[0] == 'A'
    ensures ParseLine(line, file) == Some(file)
  {
    assert CONTENT_TYPE[0] == 'C' && CONTENT_DISPOSITION[0] == 'C';
  }

  /** Such lines exist: the source may accept a text or refuse it, depending on where
      it is cut. */
  lemma CutCanDecide(p: Parser) returns (a: string, b: string)
    requires p.state == 2 && p.view == ""
    ensures FeedAll(p, [a + b], AtEntry) == Ok(p) && FeedAll(p, [a, b], AtEntry) == Fail
  {
    var long := seq(HEADER_MAX, _ => 'b');
    PlainLine("b", p.file);
    PlainLine(long, p.file);
    CutDecides(p, "A: " + "b", "A: " + long);
    a, b := "A: " + "b" + CRLF, "A: " + long + CRLF;
  }
}
