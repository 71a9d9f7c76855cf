/** The result of multipart parsing does not depend on how the input was cut. */
module MultipartChunks {
  import opened HttpText
  import opened Multipart

  /** The parser with more text behind what it has buffered. */
  function WithMore(p: Parser, y: string): Parser { p.(view := p.view + y) }

  /** The first line of the buffer, if it is complete, is not changed by more text. */
  lemma FirstLine(view: string, y: string)
    requires Find(view, CRLF) < |view|
    ensures var pos := Find(view, CRLF);
      && Find(view + y, CRLF) == pos && pos < |view + y|
      && (view + y)[..pos] == view[..pos]
      && (view + y)[pos + |CRLF|..] == view[pos + |CRLF|..] + y
  {
    FindAppend(view, y, CRLF);
    var pos := Find(view, CRLF);
    assert (view + y)[..pos] == view[..pos];
    assert (view + y)[pos + |CRLF|..] == view[pos + |CRLF|..] + y;
  }

  /** A line without a carriage return, with its CRLF, is the first line. */
  lemma LineFound(line: string, rest: string)
    requires '\r' !in line
    ensures var view := line + CRLF + rest;
      && Find(view, CRLF) == |line| < |view|
      && view[..|line|] == line && view[|line| + |CRLF|..] == rest
  {
    var view := line + CRLF + rest;
    assert view[|line|..|line| + |CRLF|] == CRLF;
    forall j | 0 <= j < |line| ensures !At(view, CRLF, j) {
      assert view[j] == line[j];
      AtFirst(view, CRLF, j);
    }
    FindIs(view, CRLF, |line|);
  }

  function ExtendHeaders(r: Headers, y: string, check: Check): Headers {
    match r
    case More(view', file') => ParseHeaders(view' + y, file', check)
    case Begins(view', file') => Begins(view' + y, file')
    case Refused => Refused
  }

  lemma {:induction false} HeadersExtend(view: string, file: FileInfo, check: Check, y: string)
    ensures ParseHeaders(view + y, file, check) == ExtendHeaders(ParseHeaders(view, file, check), y, check)
    decreases |view|
  {
    HeadersUnfold(view, file, check);
    HeadersUnfold(view + y, file, check);
    var pos := Find(view, CRLF);
    if pos < |view| {
      FirstLine(view, y);
      if pos > 0 && !(check.PerLine? && pos >= HEADER_MAX) {
        var next := ParseLine(view[..pos], file);
        if next.Some? {
          HeadersExtend(view[pos + |CRLF|..], next.value, check, y);
        }
      }
    }
  }

  lemma AppendTwice(items: seq<Item>, a: string, b: string)
    ensures Append(Append(items, a), b) == Append(items, a + b)
  {
    if items != [] {
      var last := |items| - 1;
      assert items[last].content + a + b == items[last].content + (a + b);
    }
  }

  lemma AppendNothing(items: seq<Item>)
    ensures Append(items, "") == items
  {
    if items != [] {
      assert items[|items| - 1].content + "" == items[|items| - 1].content;
    }
  }

  /** What the body state does with its buffer: the content before the first
      delimiter, or all but the last bytes if there is none. */
  lemma BodyStops(p: Parser)
    requires p.state == 3
    ensures var r := Body(p); var d := CrlfDashBoundary(p.boundary);
      if Find(p.view, d) < |p.view| then
        r == Again(p.(view := p.view[Find(p.view, d) + |d|..], state := 4, items := Append(p.items, p.view[..Find(p.view, d)])))
      else
        var len := if |p.view| > |d| then |p.view| - |d| else 0;
        r == Stop(Ok(p.(view := p.view[len..], items := Append(p.items, p.view[..len]))))
  {
    AppendNothing(p.items);
    assert p.view[..0] == "" && p.view[0..] == p.view;
  }

  function Go(o: Outcome, check: Check): Result
    requires o.Again? ==> o.p.state <= 4
  {
    match o
    case Stop(r) => r
    case Again(p) => Drive(p, check)
  }

  lemma DriveBody(p: Parser, check: Check)
    requires p.state == 3
    ensures Drive(p, check) == Go(Body(p), check)
  {
  }

  /** Text v without the delimiter loses its first len bytes, then y arrives: where
      the delimiter is found, and what is in front of it and kept behind it. */
  lemma Cut(v: string, y: string, d: string, len: nat)
    requires |d| > 0 && Find(v, d) == |v|
    requires len == if |v| > |d| then |v| - |d| else 0
    ensures var w, u := v + y, v[len..] + y;
      && u == w[len..]
      && Find(w, d) >= len && Find(u, d) == Find(w, d) - len
      && v[..len] + u[..Find(u, d)] == w[..Find(w, d)]
      && u[Find(u, d)..] == w[Find(w, d)..]
  {
    var w, u := v + y, v[len..] + y;
    assert u == w[len..];
    FindAppendNone(v, y, d);
    FindDrop(w, d, len);
  }

  /** The buffer without its first len bytes, which are appended as content. */
  function Emit(p: Parser, len: nat): Parser
    requires len <= |p.view|
  {
    p.(view := p.view[len..], items := Append(p.items, p.view[..len]))
  }

  /** Behind the delimiter that occurs in s at pos; what is in front is content. */
  function Behind(p: Parser, s: string, pos: nat): Parser
    requires pos + |CrlfDashBoundary(p.boundary)| <= |s|
  {
    p.(state := 4, view := s[pos + |CrlfDashBoundary(p.boundary)|..], items := Append(p.items, s[..pos]))
  }

  lemma BodyFinds(p: Parser, pos: nat)
    requires p.state == 3 && pos < |p.view| && pos == Find(p.view, CrlfDashBoundary(p.boundary))
    ensures pos + |CrlfDashBoundary(p.boundary)| <= |p.view|
    ensures Body(p) == Again(Behind(p, p.view, pos))
  {
  }

  lemma SameBehind(p: Parser, q: Parser, w: string, i: nat, u: string, j: nat)
    requires p.(view := "", items := []) == q.(view := "", items := [])
    requires i + |CrlfDashBoundary(p.boundary)| <= |w| && j + |CrlfDashBoundary(p.boundary)| <= |u|
    requires w[i..] == u[j..] && Append(p.items, w[..i]) == Append(q.items, u[..j])
    ensures Behind(p, w, i) == Behind(q, u, j)
  {
  }

  lemma BodyExtendFound(p: Parser, y: string, len: nat)
    requires p.state == 3
    requires var d := CrlfDashBoundary(p.boundary);
      && Find(p.view, d) == |p.view| && len == (if |p.view| > |d| then |p.view| - |d| else 0)
      && Find(p.view + y, d) < |p.view + y|
    ensures Body(WithMore(p, y)) == Body(WithMore(Emit(p, len), y))
  {
    var d := CrlfDashBoundary(p.boundary);
    Cut(p.view, y, d, len);
    var py, qy := WithMore(p, y), WithMore(Emit(p, len), y);
    var i, j := Find(py.view, d), Find(qy.view, d);
    BodyFinds(py, i);
    BodyFinds(qy, j);
    AppendTwice(p.items, p.view[..len], qy.view[..j]);
    SameBehind(py, qy, py.view, i, qy.view, j);
  }

  lemma BodyExtendNone(p: Parser, y: string, len: nat)
    requires p.state == 3
    requires var d := CrlfDashBoundary(p.boundary);
      && Find(p.view, d) == |p.view| && len == (if |p.view| > |d| then |p.view| - |d| else 0)
      && Find(p.view + y, d) == |p.view + y|
    ensures Body(WithMore(p, y)) == Body(WithMore(Emit(p, len), y))
  {
    var d := CrlfDashBoundary(p.boundary);
    Cut(p.view, y, d, len);
    BodyStops(WithMore(p, y));
    BodyStops(WithMore(Emit(p, len), y));
    KeepTail(p.items, p.view, y, d, len);
  }

  /** In the body state: if the buffer has no delimiter, emptying it first makes no
      difference to what happens when more text arrives. */
  lemma BodyExtend(p: Parser, y: string, check: Check)
    requires p.state == 3 && Find(p.view, CrlfDashBoundary(p.boundary)) == |p.view|
    ensures Body(p).Stop? && Body(p).r.Ok? && Body(p).r.p.state == 3
    ensures Drive(WithMore(p, y), check) == Drive(WithMore(Body(p).r.p, y), check)
  {
    var d := CrlfDashBoundary(p.boundary);
    BodyStops(p);
    var len := if |p.view| > |d| then |p.view| - |d| else 0;
    if Find(p.view + y, d) < |p.view + y| {
      BodyExtendFound(p, y, len);
    } else {
      BodyExtendNone(p, y, len);
    }
    DriveBody(WithMore(p, y), check);
    DriveBody(WithMore(Emit(p, len), y), check);
  }

  /** Without a delimiter in sight, appending in two portions keeps the same tail. */
  lemma KeepTail(items: seq<Item>, v: string, y: string, d: string, len: nat)
    requires len == if |v| > |d| then |v| - |d| else 0
    ensures var w, u := v + y, v[len..] + y;
      var m := if |w| > |d| then |w| - |d| else 0;
      var n := if |u| > |d| then |u| - |d| else 0;
      w[m..] == u[n..] && Append(Append(items, v[..len]), u[..n]) == Append(items, w[..m])
  {
    var w, u := v + y, v[len..] + y;
    var m := if |w| > |d| then |w| - |d| else 0;
    var n := if |u| > |d| then |u| - |d| else 0;
    AppendTwice(items, v[..len], u[..n]);
    assert v[..len] + u[..n] == w[..m];
  }

  // ----- the whole loop

  /** A pass that goes on does the same with more text behind the buffer; the
      closing delimiter is the exception, since it discards the buffer. */
  lemma StepExtend(p: Parser, y: string, check: Check)
    requires 1 <= p.state <= 4 && p.view != "" && !check.AtEntry?
    ensures match Step(p, check)
      case Again(p') => !p'.valid ==> Step(WithMore(p, y), check) == Again(WithMore(p', y))
      case Stop(Fail) => Step(WithMore(p, y), check) == Stop(Fail)
      case Stop(Ok(q)) => true
  {
    match p.state {
      case 1 =>
      case 2 => HeadersExtend(p.view, p.file, check, y);
      case 3 =>
        var d := CrlfDashBoundary(p.boundary);
        BodyStops(p);
        if Find(p.view, d) < |p.view| {
          BodyFindsMore(p, y);
        }
      case _ =>
        if |p.view| >= |CRLF| && CRLF <= p.view {
          assert (p.view + y)[|CRLF|..] == p.view[|CRLF|..] + y;
        }
    }
  }

  lemma BodyFindsMore(p: Parser, y: string)
    requires p.state == 3 && Find(p.view, CrlfDashBoundary(p.boundary)) < |p.view|
    ensures Body(p).Again? && Body(WithMore(p, y)) == Again(WithMore(Body(p).p, y))
  {
    var d := CrlfDashBoundary(p.boundary);
    var pos := Find(p.view, d);
    FindAppend(p.view, y, d);
    BodyFinds(p, pos);
    BodyFinds(WithMore(p, y), pos);
    assert (p.view + y)[pos + |d|..] == p.view[pos + |d|..] + y;
    assert (p.view + y)[..pos] == p.view[..pos];
  }

  /** Where the loop stops for want of text, it is as if it had not yet begun on
      what is buffered. */
  lemma StopExtend(p: Parser, y: string, check: Check)
    requires 1 <= p.state <= 4 && p.view != "" && !check.AtEntry?
    requires Step(p, check).Stop? && Step(p, check).r.Ok?
    ensures Step(p, check).r.p.state == p.state && Step(p, check).r.p.valid == p.valid
    ensures Drive(WithMore(p, y), check) == Drive(WithMore(Step(p, check).r.p, y), check)
  {
    if p.state == 2 {
      HeaderStopExtend(p, y, check);
    } else if p.state == 3 {
      BodyStops(p);
      BodyExtend(p, y, check);
    }
  }

  lemma HeaderStopExtend(p: Parser, y: string, check: Check)
    requires p.state == 2 && p.view != "" && !check.AtEntry?
    requires HeaderState(p, check).Stop? && HeaderState(p, check).r.Ok?
    ensures HeaderState(p, check).r.p.state == 2 && HeaderState(p, check).r.p.valid == p.valid
    ensures Drive(WithMore(p, y), check) == Drive(WithMore(HeaderState(p, check).r.p, y), check)
  {
    var q := HeaderState(p, check).r.p;
    HeadersExtend(p.view, p.file, check, y);
    DriveUnfold(WithMore(p, y), check);
    if WithMore(q, y).view == "" {
      HeadersKeepNothing(p.view, p.file, check);
    } else {
      DriveUnfold(WithMore(q, y), check);
    }
  }

  /** Headers that end exactly with the buffer leave nothing to do. */
  lemma {:induction false} HeadersKeepNothing(view: string, file: FileInfo, check: Check)
    ensures var r := ParseHeaders(view, file, check);
      r.More? && r.view == "" ==> ParseHeaders("", r.file, check) == r
  {
  }

  /** One call with x and then one with y, or one call with both: the results are
      the same as long as the first call does not see the closing delimiter. */
  lemma {:induction false} DriveExtend(p: Parser, y: string, check: Check)
    requires 1 <= p.state <= 4 && !check.AtEntry? && !p.valid
    requires Drive(p, check).Ok? ==> !Drive(p, check).p.valid
    ensures Drive(WithMore(p, y), check) == DriveMore(Drive(p, check), y, check)
    decreases |p.view|, if p.state == 1 then 1 else 0
  {
    if p.view != "" {
      StepExtend(p, y, check);
      var step := Step(p, check);
      if step.Again? {
        DriveAgain(p, check);
        DriveAgain(WithMore(p, y), check);
        DriveExtend(step.p, y, check);
      } else if step.r.Ok? {
        StopExtend(p, y, check);
      }
    }
  }

  function DriveMore(r: Result, y: string, check: Check): Result
    requires r.Ok? ==> r.p.state <= 4
  {
    match r
    case Fail => Fail
    case Ok(q) => Drive(WithMore(q, y), check)
  }

  lemma DriveAgain(p: Parser, check: Check)
    requires 1 <= p.state <= 4 && p.view != "" && Step(p, check).Again?
    ensures var p' := Step(p, check).p;
      && 1 <= p'.state <= 4 && Drive(p, check) == Drive(p', check)
      && (|p'.view| < |p.view| || (|p'.view| == |p.view| && p.state == 1 && p'.state != 1))
      && (!p.valid && p'.valid ==> Drive(p, check).Ok? && Drive(p, check).p.valid)
  {
  }

  // ----- chunks

  lemma {:induction false} FeedAllSnoc(p: Parser, chunks: seq<string>, check: Check)
    requires p.state <= 4 && chunks != []
    ensures FeedAll(p, chunks, check) ==
      match FeedAll(p, chunks[..|chunks| - 1], check)
      case Fail => Fail
      case Ok(q) => Feed(q, chunks[|chunks| - 1], check)
    decreases |chunks|
  {
    var last := |chunks| - 1;
    if last > 0 {
      assert chunks[..last][0] == chunks[0] && chunks[..last][1..] == chunks[1..][..last - 1];
      var r := Feed(p, chunks[0], check);
      if r.Ok? {
        FeedAllSnoc(r.p, chunks[1..], check);
      }
    }
  }

  lemma {:induction false} ConcatSnoc(chunks: seq<string>)
    requires chunks != []
    ensures Concat(chunks) == Concat(chunks[..|chunks| - 1]) + chunks[|chunks| - 1]
  {
    var last := |chunks| - 1;
    if last > 0 {
      assert chunks[..last][0] == chunks[0] && chunks[..last][1..] == chunks[1..][..last - 1];
      ConcatSnoc(chunks[1..]);
    }
  }

  lemma {:induction false} FeedAllConcat(p: Parser, a: seq<string>, b: seq<string>, check: Check)
    requires p.state <= 4
    ensures FeedAll(p, a + b, check) == FeedOn(FeedAll(p, a, check), b, check)
    decreases |a|
  {
    if a == [] {
      assert a + b == b;
    } else {
      assert (a + b)[0] == a[0] && (a + b)[1..] == a[1..] + b;
      var r := Feed(p, a[0], check);
      if r.Ok? {
        FeedAllConcat(r.p, a[1..], b, check);
      }
    }
  }

  function FeedOn(r: Result, chunks: seq<string>, check: Check): Result
    requires r.Ok? ==> r.p.state <= 4
  {
    match r
    case Fail => Fail
    case Ok(q) => FeedAll(q, chunks, check)
  }

  // ----- the content of one item

  predicate NoDelimiter(p: Parser, s: string) { Find(s, CrlfDashBoundary(p.boundary)) == |s| }

  /** The parser that stood in the body with nothing buffered, when s has arrived
      without a delimiter: all but the last few bytes are content. */
  function Kept(p: Parser, s: string): Parser {
    var d := CrlfDashBoundary(p.boundary);
    var n := if |s| > |d| then |s| - |d| else 0;
    p.(view := s[n..], items := Append(p.items, s[..n]))
  }

  lemma KeptNothing(p: Parser)
    requires p.view == ""
    ensures Kept(p, "") == p
  {
    AppendNothing(p.items);
  }

  lemma KeptIsEmitted(p: Parser, v: string) returns (len: nat)
    requires p.state == 3
    ensures len == if |v| > |CrlfDashBoundary(p.boundary)| then |v| - |CrlfDashBoundary(p.boundary)| else 0
    ensures Emit(p.(view := v), len) == Kept(p, v)
  {
    len := if |v| > |CrlfDashBoundary(p.boundary)| then |v| - |CrlfDashBoundary(p.boundary)| else 0;
  }

  lemma FeedKept(p: Parser, v: string, c: string, check: Check)
    requires p.state == 3 && NoDelimiter(p, v) && NoDelimiter(p, v + c)
    ensures Feed(Kept(p, v), c, check) == Ok(Kept(p, v + c))
  {
    var q := p.(view := v);
    var len := KeptIsEmitted(p, v);
    BodyExtendNone(q, c, len);
    BodyKeeps(p, v + c);
    DriveBody(WithMore(Kept(p, v), c), check);
  }

  lemma BodyKeeps(p: Parser, w: string)
    requires p.state == 3 && NoDelimiter(p, w)
    ensures Body(p.(view := w)) == Stop(Ok(Kept(p, w)))
  {
    BodyStops(p.(view := w));
  }

  lemma FeedFound(p: Parser, v: string, c: string, pos: nat, check: Check)
    requires p.state == 3 && NoDelimiter(p, v)
    requires pos == Find(v + c, CrlfDashBoundary(p.boundary)) < |v + c|
    ensures pos + |CrlfDashBoundary(p.boundary)| <= |v + c|
    ensures Feed(Kept(p, v), c, check) == Drive(Behind(p, v + c, pos), check)
  {
    var q := p.(view := v);
    var len := KeptIsEmitted(p, v);
    BodyExtendFound(q, c, len);
    BodyFindsIn(p, v + c, pos);
    DriveBody(WithMore(Kept(p, v), c), check);
  }

  lemma BodyFindsIn(p: Parser, w: string, pos: nat)
    requires p.state == 3 && pos == Find(w, CrlfDashBoundary(p.boundary)) < |w|
    ensures pos + |CrlfDashBoundary(p.boundary)| <= |w|
    ensures Body(p.(view := w)) == Again(Behind(p, w, pos))
  {
    BodyFinds(p.(view := w), pos);
  }

  lemma NoneBefore(p: Parser, v: string, w: string)
    requires NoDelimiter(p, v + w)
    ensures NoDelimiter(p, v)
  {
    if !NoDelimiter(p, v) {
      FindAppend(v, w, CrlfDashBoundary(p.boundary));
    }
  }

  /** Without a delimiter, however the bytes are cut: all but the last few are
      content, and those are kept in the buffer. */
  lemma {:induction false} BodyContentNone(p: Parser, chunks: seq<string>, check: Check)
    requires p.state == 3 && p.view == "" && NoDelimiter(p, Concat(chunks))
    ensures FeedAll(p, chunks, check) == Ok(Kept(p, Concat(chunks)))
    decreases |chunks|
  {
    if chunks == [] {
      KeptNothing(p);
    } else {
      var init, last := chunks[..|chunks| - 1], chunks[|chunks| - 1];
      FeedAllSnoc(p, chunks, check);
      ConcatSnoc(chunks);
      NoneBefore(p, Concat(init), last);
      BodyContentNone(p, init, check);
      FeedKept(p, Concat(init), last, check);
    }
  }

  /** The chunk c completes the first delimiter: the content is exactly the bytes in
      front of it, and the parser goes on with the bytes behind it and then with the
      chunks behind c, whatever they make it do. */
  lemma BodyContentFound(p: Parser, a: seq<string>, c: string, rest: seq<string>, pos: nat, check: Check)
    requires p.state == 3 && p.view == "" && NoDelimiter(p, Concat(a))
    requires pos == Find(Concat(a) + c, CrlfDashBoundary(p.boundary)) < |Concat(a) + c|
    ensures pos + |CrlfDashBoundary(p.boundary)| <= |Concat(a) + c|
    ensures FeedAll(p, a + ([c] + rest), check) == FeedOn(Drive(Behind(p, Concat(a) + c, pos), check), rest, check)
  {
    BodyContentNone(p, a, check);
    FeedFound(p, Concat(a), c, pos, check);
    FeedAllConcat(p, a, [c] + rest, check);
    assert ([c] + rest)[1..] == rest;
  }

  /** Some chunk completes the first delimiter, if there is one in the bytes. */
  lemma {:induction false} CompletingChunk(p: Parser, chunks: seq<string>) returns (k: nat)
    requires !NoDelimiter(p, Concat(chunks))
    ensures k < |chunks| && chunks == chunks[..k] + ([chunks[k]] + chunks[k + 1..])
    ensures NoDelimiter(p, Concat(chunks[..k])) && !NoDelimiter(p, Concat(chunks[..k]) + chunks[k])
    ensures Find(Concat(chunks[..k]) + chunks[k], CrlfDashBoundary(p.boundary))
         == Find(Concat(chunks), CrlfDashBoundary(p.boundary))
    decreases |chunks|
  {
    var last := |chunks| - 1;
    ConcatSnoc(chunks);
    if NoDelimiter(p, Concat(chunks[..last])) {
      k := last;
    } else {
      k := CompletingChunk(p, chunks[..last]);
      assert chunks[..last][..k] == chunks[..k];
      FindAppend(Concat(chunks[..last]), chunks[last], CrlfDashBoundary(p.boundary));
    }
  }

  /** In the body state, for any bytes with a delimiter and any chunks: the content
      is exactly the bytes before the first delimiter. */
  lemma BodyContent(p: Parser, chunks: seq<string>, check: Check) returns (k: nat)
    requires p.state == 3 && p.view == "" && !NoDelimiter(p, Concat(chunks))
    ensures k < |chunks|
    ensures var pos, s := Find(Concat(chunks), CrlfDashBoundary(p.boundary)), Concat(chunks[..k]) + chunks[k];
      && pos + |CrlfDashBoundary(p.boundary)| <= |s|
      && FeedAll(p, chunks, check) == FeedOn(Drive(Behind(p, s, pos), check), chunks[k + 1..], check)
  {
    k := CompletingChunk(p, chunks);
    BodyContentFound(p, chunks[..k], chunks[k], chunks[k + 1..],
                     Find(Concat(chunks), CrlfDashBoundary(p.boundary)), check);
  }
}
