/** A multipart parser that misses the opening delimiter line: wherever it comes to
    synchronise later, it does not report the items that were serialized. Each item
    it begins, it begins behind the place where that item's content begins. */
module MultipartSync {
  import opened HttpText
  import opened Multipart
  import opened MultipartChunks
  import opened MultipartIndependence
  import opened MultipartRoundTrip

  // ----- positions in the serialized text

  /** The content of the first item and all that follows. */
  function From(items: seq<Item>, boundary: string): string
    requires items != []
  {
    items[0].content + (CRLF + Serialize(items[1..], boundary))
  }

  /** Where the content of item k begins. */
  function ContentAt(items: seq<Item>, boundary: string, k: nat): nat
    requires k < |items|
  {
    |DashBoundaryCrlf(boundary)| + |HeaderBlock(items[0].info)|
    + if k == 0 then 0 else |items[0].content| + |CRLF| + ContentAt(items[1..], boundary, k - 1)
  }

  lemma SerializeFrom(items: seq<Item>, boundary: string)
    requires items != []
    ensures Serialize(items, boundary)
         == DashBoundaryCrlf(boundary) + HeaderBlock(items[0].info) + From(items, boundary)
  {
    var a, c := DashBoundaryCrlf(boundary) + HeaderBlock(items[0].info), items[0].content;
    assert a + c + CRLF + Serialize(items[1..], boundary) == a + (c + (CRLF + Serialize(items[1..], boundary)));
  }

  /** The delimiter line and the header block of the first item. */
  function Front(items: seq<Item>, boundary: string): string
    requires items != []
  {
    DashBoundaryCrlf(boundary) + HeaderBlock(items[0].info)
  }

  lemma ContentNext(items: seq<Item>, boundary: string, k: nat, front: string, content: string, rest: string)
    requires 0 < k < |items| && front == Front(items, boundary)
    requires content == items[0].content && rest == Serialize(items[1..], boundary)
    ensures Serialize(items, boundary) == front + (content + (CRLF + rest))
    ensures ContentAt(items, boundary, k)
         == |front| + (|content| + |CRLF| + ContentAt(items[1..], boundary, k - 1))
  {
    SerializeFrom(items, boundary);
  }

  lemma {:induction false} ContentIsAt(items: seq<Item>, boundary: string, k: nat)
    requires k < |items|
    ensures ContentAt(items, boundary, k) <= |Serialize(items, boundary)|
    ensures Serialize(items, boundary)[ContentAt(items, boundary, k)..] == From(items[k..], boundary)
  {
    if k == 0 {
      ContentFirst(items, boundary);
    } else {
      var front, content, rest := Front(items, boundary), items[0].content, Serialize(items[1..], boundary);
      ContentIsAt(items[1..], boundary, k - 1);
      assert items[1..][k - 1..] == items[k..];
      ContentNext(items, boundary, k, front, content, rest);
      DropMore(Serialize(items, boundary), ContentAt(items, boundary, k), front, content, rest,
        ContentAt(items[1..], boundary, k - 1), From(items[k..], boundary));
    }
  }

  lemma ContentFirst(items: seq<Item>, boundary: string)
    requires items != []
    ensures ContentAt(items, boundary, 0) <= |Serialize(items, boundary)|
    ensures Serialize(items, boundary)[ContentAt(items, boundary, 0)..] == From(items[0..], boundary)
  {
    SerializeFrom(items, boundary);
    assert items[0..] == items;
  }

  lemma DropMore(w: string, at: nat, a: string, c: string, s: string, n: nat, from: string)
    requires w == a + (c + (CRLF + s)) && at == |a| + (|c| + |CRLF| + n)
    requires n <= |s| && s[n..] == from
    ensures at <= |w| && w[at..] == from
  {
  }

  // ----- the line breaks of a header block

  lemma BlockReturns(info: FileInfo, i: nat)
    requires NamesOk(info) && TypeOk(info.contentType)
    requires i < |HeaderBlock(info)| && HeaderBlock(info)[i] == '\r'
    ensures var n := |HeaderBlock(info)|;
      || (i == |DispositionLine(info)| && i > 0 && HeaderBlock(info)[i - 1] == '"')
      || (i == n - 4 && info.contentType != "")
      || (i == n - 2 && i >= 2 && HeaderBlock(info)[i - 1] == '\n')
    ensures i + 2 < |HeaderBlock(info)| ==> HeaderBlock(info)[i + 2] != '-'
  {
    NoReturns(info);
    var line := DispositionLine(info);
    var behind := CRLF + (if info.contentType == "" then CRLF else TypeLine(info) + CRLF + CRLF);
    BlockParts(info, line, behind);
    assert line[|line| - 1] == '"' by {
      assert ParameterText(info)[|ParameterText(info)| - 1] == '"';
    }
    if info.contentType != "" {
      assert TypeLine(info)[0] == CONTENT_TYPE[0] == 'C';
    }
  }

  lemma BlockParts(info: FileInfo, line: string, behind: string)
    requires line == DispositionLine(info)
    requires behind == CRLF + (if info.contentType == "" then CRLF else TypeLine(info) + CRLF + CRLF)
    ensures HeaderBlock(info) == line + behind
  {
  }

  lemma BlockEnds(info: FileInfo)
    ensures var n := |HeaderBlock(info)|; n >= 4 && HeaderBlock(info)[n - 2] == '\r' && HeaderBlock(info)[n - 1] == '\n'
    ensures HeaderBlock(info)[0] == 'C'
  {
    assert DispositionLine(info)[0] == CONTENT_DISPOSITION[0] == 'C';
  }

  /** The text between the end of one item's content and the content of the next:
      past its beginning no delimiter can begin and end in it. */
  lemma NoDelimiterBetween(info: FileInfo, boundary: string, o: nat)
    requires BoundaryOk(boundary) && NamesOk(info) && TypeOk(info.contentType) && o > 0
    ensures !At(CRLF + (DashBoundaryCrlf(boundary) + HeaderBlock(info)), CrlfDashBoundary(boundary), o)
  {
    var line, block, d := DashBoundaryCrlf(boundary), HeaderBlock(info), CrlfDashBoundary(boundary);
    var t := CRLF + (line + block);
    AtHolds(t, d, o, 0);
    AtHolds(t, d, o, 2);
    assert d[0] == '\r' && d[2] == '-';
    BlockEnds(info);
    if o + 2 < |t| && t[o] == '\r' {
      ReturnIn(boundary, block, o);
      if o >= 2 + |line| {
        BlockReturns(info, o - 2 - |line|);
      }
    }
  }

  lemma ReturnIn(boundary: string, block: string, o: nat)
    requires BoundaryOk(boundary) && o > 0 && block != "" && block[0] == 'C'
    requires var t := CRLF + (DashBoundaryCrlf(boundary) + block); o + 2 < |t| && t[o] == '\r'
    ensures var t, line := CRLF + (DashBoundaryCrlf(boundary) + block), DashBoundaryCrlf(boundary);
      if o < 2 + |line| then t[o + 2] == 'C'
      else block[o - 2 - |line|] == '\r' && t[o + 2] == block[o - |line|]
  {
  }

  /** In the closing delimiter line, with the CRLF in front, no delimiter begins but
      at its beginning. */
  lemma NoDelimiterAtEnd(boundary: string, o: nat)
    requires BoundaryOk(boundary) && o > 0
    ensures !At(CRLF + Serialize([], boundary), CrlfDashBoundary(boundary), o)
  {
    AtHolds(CRLF + Serialize([], boundary), CrlfDashBoundary(boundary), o, 0);
    assert CrlfDashBoundary(boundary)[0] == '\r';
  }

  // ----- where delimiters are

  lemma AtBehind(w: string, s: string, e: nat, o: nat)
    requires e <= |w|
    ensures At(w, s, e + o) == At(w[e..], s, o)
  {
    if e + o + |s| <= |w| {
      assert w[e..][o..o + |s|] == w[e + o..e + o + |s|];
    }
  }

  /** The text behind the content of item j - 1. */
  lemma BehindContent(items: seq<Item>, boundary: string, j: nat) returns (e: nat)
    requires 1 <= j <= |items|
    ensures e == ContentAt(items, boundary, j - 1) + |items[j - 1].content| <= |Serialize(items, boundary)|
    ensures Serialize(items, boundary)[e..] == CRLF + Serialize(items[j..], boundary)
  {
    e := ContentAt(items, boundary, j - 1) + |items[j - 1].content|;
    ContentIsAt(items, boundary, j - 1);
    ContentPassed(Serialize(items, boundary), ContentAt(items, boundary, j - 1), items, boundary, j, e);
  }

  lemma ContentPassed(w: string, at: nat, items: seq<Item>, boundary: string, j: nat, e: nat)
    requires 1 <= j <= |items| && at <= |w| && w[at..] == From(items[j - 1..], boundary)
    requires e == at + |items[j - 1].content|
    ensures e <= |w| && w[e..] == CRLF + Serialize(items[j..], boundary)
  {
    FromIs(items, boundary, j);
    DropPart(w, at, items[j - 1].content, CRLF + Serialize(items[j..], boundary));
  }

  lemma FromIs(items: seq<Item>, boundary: string, j: nat)
    requires 1 <= j <= |items|
    ensures From(items[j - 1..], boundary) == items[j - 1].content + (CRLF + Serialize(items[j..], boundary))
  {
    assert items[j - 1..][0] == items[j - 1] && items[j - 1..][1..] == items[j..];
  }

  lemma DropPart(w: string, n: nat, a: string, b: string)
    requires n <= |w| && w[n..] == a + b
    ensures n + |a| <= |w| && w[n + |a|..] == b
  {
    assert w[n + |a|..] == w[n..][|a|..];
  }

  /** Behind the end of the content of item j - 1, a delimiter ends only behind the
      place where the content of item j begins; behind the last item there is none. */
  lemma DelimiterIsLate(items: seq<Item>, boundary: string, j: nat, at: nat)
    requires BoundaryOk(boundary) && ItemsOk(items, boundary) && 1 <= j <= |items|
    requires at > ContentAt(items, boundary, j - 1) + |items[j - 1].content|
    ensures At(Serialize(items, boundary), CrlfDashBoundary(boundary), at) ==>
      j < |items| && at + |CrlfDashBoundary(boundary)| > ContentAt(items, boundary, j)
  {
    var w := Serialize(items, boundary);
    var e := BehindContent(items, boundary, j);
    if j == |items| {
      assert items[j..] == [];
      AtBehind(w, CrlfDashBoundary(boundary), e, at - e);
      NoDelimiterAtEnd(boundary, at - e);
    } else {
      var from := From(items[j..], boundary);
      SerializeFrom(items[j..], boundary);
      assert items[j..][0] == items[j];
      Reassociate(DashBoundaryCrlf(boundary), HeaderBlock(items[j].info), from);
      DelimiterBehind(w, e, items[j].info, boundary, from, at);
      ContentIsAt(items, boundary, j);
    }
  }

  lemma DelimiterBehind(w: string, e: nat, info: FileInfo, boundary: string, from: string, at: nat)
    requires BoundaryOk(boundary) && NamesOk(info) && TypeOk(info.contentType)
    requires e < at && e <= |w|
    requires w[e..] == CRLF + (DashBoundaryCrlf(boundary) + HeaderBlock(info)) + from
    ensures At(w, CrlfDashBoundary(boundary), at) ==> at + |CrlfDashBoundary(boundary)| > |w| - |from|
  {
    var t, d := CRLF + (DashBoundaryCrlf(boundary) + HeaderBlock(info)), CrlfDashBoundary(boundary);
    AtBehind(w, d, e, at - e);
    NoDelimiterBetween(info, boundary, at - e);
    if at - e + |d| <= |t| {
      AtAppend(t, from, d, at - e);
    }
  }

  lemma Reassociate(a: string, b: string, c: string)
    ensures CRLF + (a + b + c) == CRLF + (a + b) + c == (CRLF + a) + b + c
  {
  }

  /** Past the beginning, an opening delimiter line ends only behind the place where
      the content of the first item begins, or with its Content-Type line. */
  lemma OpeningIsLate(items: seq<Item>, boundary: string, at: nat)
    requires BoundaryOk(boundary) && ItemsOk(items, boundary) && items != [] && at > 0
    ensures At(Serialize(items, boundary), DashBoundaryCrlf(boundary), at) ==>
      var end := at + |DashBoundaryCrlf(boundary)|;
      end > ContentAt(items, boundary, 0)
      || (end + 2 == ContentAt(items, boundary, 0) && items[0].info.contentType != "")
  {
    var line, block := DashBoundaryCrlf(boundary), HeaderBlock(items[0].info);
    SerializeFrom(items, boundary);
    if at + |line| <= |line + block| {
      AtAppend(line + block, From(items, boundary), line, at);
      LineInBlock(items[0].info, boundary, at);
    }
  }

  lemma LineInBlock(info: FileInfo, boundary: string, at: nat)
    requires BoundaryOk(boundary) && NamesOk(info) && TypeOk(info.contentType) && at > 0
    requires at <= |HeaderBlock(info)|
    ensures At(DashBoundaryCrlf(boundary) + HeaderBlock(info), DashBoundaryCrlf(boundary), at) ==>
      at + 2 == |HeaderBlock(info)| && info.contentType != ""
  {
    var line, block := DashBoundaryCrlf(boundary), HeaderBlock(info);
    var t, n := line + block, |line|;
    AtHolds(t, line, at, n - 2);
    AtHolds(t, line, at, n - 3);
    LineEnd(boundary);
    if at >= 2 && block[at - 2] == '\r' {
      BlockReturns(info, at - 2);
    }
  }

  lemma LineEnd(boundary: string)
    requires BoundaryOk(boundary)
    ensures var line := DashBoundaryCrlf(boundary); var n := |line|;
      n >= 4 && line[n - 1] == '\n' && line[n - 2] == '\r' && line[n - 3] != '"' && line[n - 3] != '\n'
  {
  }

  // ----- what the parser passes over

  ghost predicate Break(w: string, at: nat) { 2 <= at <= |w| && w[at - 2] == '\r' && w[at - 1] == '\n' }

  lemma BreakAt(w: string, at: nat)
    ensures At(w, CRLF, at) ==> Break(w, at + 2)
  {
    AtHolds(w, CRLF, at, 0);
    AtHolds(w, CRLF, at, 1);
  }

  /** The header lines that are passed over end with a line break, and so does the
      empty line. */
  ghost predicate Moved(view: string, r: Headers, k: nat) {
    && k <= |view|
    && (r.More? ==> r.view == view[k..] && (k == 0 || Break(view, k)))
    && (r.Begins? ==> r.view == view[k..] && Break(view, k) && (k == 2 || Break(view, k - 2)))
  }

  lemma {:induction false} HeadersMove(view: string, file: FileInfo, check: Check) returns (k: nat)
    ensures Moved(view, ParseHeaders(view, file, check), k)
    decreases |view|
  {
    var pos := Find(view, CRLF);
    BreakAt(view, pos);
    if 0 < pos < |view| && LineOk(view[..pos], file, check) {
      var file' := ParseLine(view[..pos], file).value;
      var k' := HeadersMove(view[pos + 2..], file', check);
      k := pos + 2 + k';
      var r := ParseHeaders(view[pos + 2..], file', check);
      NextLine(view, file, check, pos, file', r);
      MovedOn(view, r, pos + 2, k', k);
    } else {
      k := if pos == 0 < |view| then 2 else 0;
      NoLine(view, file, check, pos);
    }
  }

  /** The line is short enough, where that is checked, and accepted. */
  predicate LineOk(line: string, file: FileInfo, check: Check) {
    !(check.PerLine? && |line| >= HEADER_MAX) && ParseLine(line, file).Some?
  }

  lemma NextLine(view: string, file: FileInfo, check: Check, pos: nat, file': FileInfo, r: Headers)
    requires pos == Find(view, CRLF) && 0 < pos < |view| && LineOk(view[..pos], file, check)
    requires file' == ParseLine(view[..pos], file).value && r == ParseHeaders(view[pos + 2..], file', check)
    ensures ParseHeaders(view, file, check) == r
  {
    HeadersUnfold(view, file, check);
  }

  lemma NoLine(view: string, file: FileInfo, check: Check, pos: nat)
    requires pos == Find(view, CRLF) && !(0 < pos < |view| && LineOk(view[..pos], file, check))
    requires pos < |view| ==> Break(view, pos + 2)
    ensures Moved(view, ParseHeaders(view, file, check), if pos == 0 < |view| then 2 else 0)
  {
    HeadersUnfold(view, file, check);
    assert view[0..] == view;
  }

  lemma MovedOn(view: string, r: Headers, n: nat, k': nat, k: nat)
    requires Break(view, n) && Moved(view[n..], r, k') && k == n + k'
    ensures Moved(view, r, k)
  {
    DropMoved(view, n, k');
  }

  lemma DropMoved(view: string, n: nat, k: nat)
    requires n + k <= |view|
    ensures view[n..][k..] == view[n + k..]
  {
  }

  // ----- what can still become the items

  /** The parser may still come to report the items: what it has reported is their
      beginning. */
  ghost predicate Toward(items: seq<Item>, p: Parser) {
    if p.state == 3 && p.items != [] then
      var last := |p.items| - 1;
      && last < |items| && p.items[..last] == items[..last]
      && p.items[last].info == items[last].info && p.items[last].content <= items[last].content
    else p.items <= items
  }

  lemma AppendLast(before: seq<Item>, x: string)
    requires before != []
    ensures var last, after := |before| - 1, Append(before, x);
      && |after| == |before| && after[..last] == before[..last]
      && after[last].info == before[last].info && after[last].content == before[last].content + x
  {
  }

  /** Items that are reported stay reported. */
  lemma StepToward(items: seq<Item>, p: Parser, check: Check)
    requires p.state <= 4 && (p.state == 3 ==> p.items != [])
    ensures match Step(p, check)
      case Again(p') => p'.state <= 4 && (p'.state == 3 ==> p'.items != []) && (Toward(items, p') ==> Toward(items, p))
      case Stop(Ok(q)) => Toward(items, q) ==> Toward(items, p)
      case Stop(Fail) => true
  {
    if p.state == 3 {
      BodyToward(items, p);
    }
  }

  lemma BodyToward(items: seq<Item>, p: Parser)
    requires p.state == 3 && p.items != []
    ensures match Body(p)
      case Again(p') => Toward(items, p') ==> Toward(items, p)
      case Stop(Ok(q)) => Toward(items, q) ==> Toward(items, p)
      case Stop(Fail) => true
  {
    BodyStops(p);
    var d := CrlfDashBoundary(p.boundary);
    var n := if Find(p.view, d) < |p.view| then Find(p.view, d) else if |p.view| > |d| then |p.view| - |d| else 0;
    AppendLast(p.items, p.view[..n]);
    var after, last := Append(p.items, p.view[..n]), |p.items| - 1;
    if after <= items {
      assert after[last] == items[last] && after[..last] == items[..last];
    }
  }

  lemma {:induction false} DriveToward(items: seq<Item>, p: Parser, check: Check)
    requires p.state <= 4 && (p.state == 3 ==> p.items != [])
    ensures Drive(p, check).Ok? && Toward(items, Drive(p, check).p) ==> Toward(items, p)
    ensures Drive(p, check).Ok? && Drive(p, check).p.state == 3 ==> Drive(p, check).p.items != []
    decreases |p.view|, if p.state == 1 then 1 else 0
  {
    if p.view != "" {
      DriveUnfold(p, check);
      StepToward(items, p, check);
      if Step(p, check).Again? {
        DriveToward(items, Step(p, check).p, check);
      }
    }
  }

  // ----- a parser that is too late

  /** Serialized items, their text and where in it each content begins. */
  datatype Written = Written(items: seq<Item>, boundary: string, w: string, at: seq<nat>)

  ghost predicate Faithful(x: Written) {
    && x.items != [] && BoundaryOk(x.boundary) && ItemsOk(x.items, x.boundary)
    && x.w == Serialize(x.items, x.boundary) && |x.at| == |x.items|
    && forall k :: 0 <= k < |x.at| ==> x.at[k] == ContentAt(x.items, x.boundary, k)
  }

  function Layout(items: seq<Item>, boundary: string): Written {
    Written(items, boundary, Serialize(items, boundary),
            seq(|items|, k requires 0 <= k < |items| => ContentAt(items, boundary, k)))
  }

  /** What is buffered is the text up to position m; the parser stands at pos. */
  ghost predicate StandsAt(w: string, p: Parser, m: nat, pos: nat) {
    pos <= m <= |w| && p.view == w[pos..m]
  }

  /** In the body: the content so far, and the empty line in front of it, which came
      too late. */
  ghost predicate LateBody(x: Written, p: Parser, pos: nat) {
    p.items != [] && |p.items| <= |x.at| &&
    LateContent(x.w, x.at[|p.items| - 1], p.items[|p.items| - 1].content, pos)
    && (p.items[|p.items| - 1].content != "" ==> |p.view| >= |CrlfDashBoundary(x.boundary)|)
  }

  ghost predicate LateContent(w: string, at: nat, content: string, pos: nat) {
    |content| <= pos <= |w| &&
    var c := pos - |content|;
    c > at + 2 && w[c..pos] == content && Break(w, c) && Break(w, c - 2)
  }

  /** The parser has gone past the beginning of the content of the next item, or the
      item that it is in began too late. */
  ghost predicate Late(x: Written, p: Parser, pos: nat) {
    if p.state == 0 then p.items == [] && pos > 0
    else if p.state == 3 then LateBody(x, p, pos)
    else
      && |p.items| < |x.at| && pos > x.at[|p.items|]
      && (p.state == 4 || Break(x.w, pos))
  }

  /** Or it stands in front of the empty line of the first item, and has missed its
      Content-Type. */
  ghost predicate Near(x: Written, p: Parser, pos: nat) {
    && p.items == [] && (p.state == 1 || (p.state == 2 && p.file == NO_FILE))
    && x.at != [] && pos + 2 == x.at[0] && x.items != [] && x.items[0].info.contentType != ""
  }

  ghost predicate Astray(x: Written, p: Parser, m: nat, pos: nat) {
    && p.state <= 4 && p.boundary == x.boundary && |x.at| == |x.items|
    && StandsAt(x.w, p, m, pos) && (Late(x, p, pos) || Near(x, p, pos))
  }

  /** After a pass the parser is astray still, unless what it has reported cannot
      become the items any more. */
  ghost predicate StillAstray(x: Written, o: Outcome, m: nat, pos: nat) {
    match o
    case Again(p) => Toward(x.items, p) ==> Astray(x, p, m, pos)
    case Stop(Ok(q)) => Toward(x.items, q) ==> Astray(x, q, m, pos)
    case Stop(Fail) => true
  }

  lemma InitialAstray(x: Written, p: Parser, m: nat, pos: nat) returns (pos': nat)
    requires Faithful(x)
    requires Astray(x, p, m, pos) && p.state == 0
    ensures StillAstray(x, Initial(p), m, pos')
  {
    var d := DashBoundaryCrlf(p.boundary);
    var n := Find(p.view, d);
    InitialIs(p, n);
    if n == |p.view| {
      pos' := m;
      assert x.w[m..m] == "";
    } else {
      pos' := pos + n + |d|;
      OpeningPassed(x.w, p.view, pos, m, n, |d|);
      OpeningFound(x, p, m, pos, n, pos');
    }
  }

  lemma InitialIs(p: Parser, n: nat)
    requires n == Find(p.view, DashBoundaryCrlf(p.boundary))
    ensures n == |p.view| ==> Initial(p) == Stop(Ok(p.(view := "")))
    ensures n < |p.view| ==> n + |DashBoundaryCrlf(p.boundary)| <= |p.view|
    ensures n < |p.view| ==>
      Initial(p) == Again(p.(view := p.view[n..][|DashBoundaryCrlf(p.boundary)|..], state := 1))
  {
  }

  lemma OpeningFound(x: Written, p: Parser, m: nat, pos: nat, n: nat, end: nat)
    requires Faithful(x) && Astray(x, p, m, pos) && p.state == 0
    requires n == Find(p.view, DashBoundaryCrlf(p.boundary)) < |p.view|
    requires end == pos + n + |DashBoundaryCrlf(p.boundary)| <= m
    ensures Astray(x, p.(view := x.w[end..m], state := 1), m, end)
  {
    AtWithin(x.w, DashBoundaryCrlf(p.boundary), pos, m, n);
    OpeningPlace(x, pos + n);
    OpenedAstray(x, p, m, pos, end);
  }

  lemma OpenedAstray(x: Written, p: Parser, m: nat, pos: nat, end: nat)
    requires Faithful(x) && Astray(x, p, m, pos) && p.state == 0 && end <= m && Break(x.w, end)
    requires end > x.at[0] || (end + 2 == x.at[0] && x.items[0].info.contentType != "")
    ensures Astray(x, p.(view := x.w[end..m], state := 1), m, end)
  {
  }

  lemma OpeningPlace(x: Written, at: nat)
    requires Faithful(x) && at > 0 && At(x.w, DashBoundaryCrlf(x.boundary), at)
    ensures var end := at + |DashBoundaryCrlf(x.boundary)|;
      && Break(x.w, end)
      && (end > x.at[0] || (end + 2 == x.at[0] && x.items[0].info.contentType != ""))
  {
    OpeningIsLate(x.items, x.boundary, at);
    LineBreaks(x.w, x.boundary, at);
  }

  lemma OpeningPassed(w: string, view: string, pos: nat, m: nat, n: nat, k: nat)
    requires pos <= m <= |w| && view == w[pos..m] && n + k <= |view|
    ensures |view[n..]| >= k && view[n..][k..] == w[pos + n + k..m]
  {
    assert view[n..][k..] == view[n + k..];
    SlicedAt(w, pos, m, n + k);
  }

  lemma AtWithin(w: string, s: string, pos: nat, m: nat, n: nat)
    requires pos <= m <= |w|
    ensures At(w[pos..m], s, n) ==> At(w, s, pos + n) && pos + n + |s| <= m
  {
    if n + |s| <= m - pos {
      SliceOfSlice(w, pos, m, n, n + |s|);
    }
  }

  lemma SlicedAt(w: string, pos: nat, m: nat, n: nat)
    requires pos <= m <= |w|
    ensures n <= m - pos ==> w[pos..m][n..] == w[pos + n..m] && w[pos..m][..n] == w[pos..pos + n]
  {
  }

  lemma LineBreaks(w: string, boundary: string, at: nat)
    requires BoundaryOk(boundary)
    ensures At(w, DashBoundaryCrlf(boundary), at) ==> Break(w, at + |DashBoundaryCrlf(boundary)|)
  {
    var line := DashBoundaryCrlf(boundary);
    LineEnd(boundary);
    AtHolds(w, line, at, |line| - 2);
    AtHolds(w, line, at, |line| - 1);
  }

  lemma HeaderAstray(x: Written, p: Parser, check: Check, m: nat, pos: nat) returns (pos': nat)
    requires Faithful(x) && Astray(x, p, m, pos) && p.state == 2
    ensures StillAstray(x, HeaderState(p, check), m, pos')
  {
    if Late(x, p, pos) {
      pos' := LateHeader(x, p, check, m, pos);
    } else {
      pos' := NearHeader(x, p, check, m, pos);
    }
  }

  lemma LateHeader(x: Written, p: Parser, check: Check, m: nat, pos: nat) returns (pos': nat)
    requires Astray(x, p, m, pos) && p.state == 2 && Late(x, p, pos)
    ensures StillAstray(x, HeaderState(p, check), m, pos')
  {
    var k := HeadersMove(p.view, p.file, check);
    pos' := pos + k;
    HeaderStateIs(p, check);
    MovedLate(x, p, ParseHeaders(p.view, p.file, check), m, pos, k, pos');
  }

  lemma MovedLate(x: Written, p: Parser, r: Headers, m: nat, pos: nat, k: nat, pos': nat)
    requires Astray(x, p, m, pos) && p.state == 2 && Late(x, p, pos)
    requires Moved(p.view, r, k) && pos' == pos + k
    ensures r.More? ==> Astray(x, p.(view := r.view, file := r.file), m, pos')
    ensures r.Begins? ==> Astray(x, Begun(p, r.view, r.file), m, pos')
  {
    SlicedAt(x.w, pos, m, k);
    BreaksWithin(x.w, pos, m, p.view, k);
    if r.More? {
      LinesLate(x, p.(view := r.view, file := r.file), p, m, pos, k);
    } else if r.Begins? {
      BeginsLate(x, Begun(p, r.view, r.file), p, m, pos, k);
    }
  }

  function Begun(p: Parser, view: string, file: FileInfo): Parser {
    p.(view := view, file := file, state := 3, items := p.items + [Item(file, "")])
  }

  lemma HeaderStateIs(p: Parser, check: Check)
    requires p.state == 2
    ensures var r := ParseHeaders(p.view, p.file, check); match HeaderState(p, check)
      case Again(q) => r.Begins? && q == Begun(p, r.view, r.file)
      case Stop(Ok(q)) => r.More? && q == p.(view := r.view, file := r.file)
      case Stop(Fail) => true
  {
  }

  lemma BreaksWithin(w: string, pos: nat, m: nat, view: string, k: nat)
    requires pos <= m <= |w| && view == w[pos..m]
    ensures Break(view, k) ==> Break(w, pos + k)
    ensures k >= 2 && Break(view, k - 2) ==> Break(w, pos + k - 2)
  {
    BreakWithin(w, pos, m, k);
    if k >= 2 {
      BreakWithin(w, pos, m, k - 2);
    }
  }

  lemma LinesLate(x: Written, q: Parser, p: Parser, m: nat, pos: nat, k: nat)
    requires Astray(x, p, m, pos) && Late(x, p, pos) && p.state == 2 && pos + k <= m
    requires q == p.(view := x.w[pos + k..m], file := q.file) && (k == 0 || Break(x.w, pos + k))
    ensures Astray(x, q, m, pos + k)
  {
  }

  lemma BeginsLate(x: Written, q: Parser, p: Parser, m: nat, pos: nat, k: nat)
    requires Astray(x, p, m, pos) && Late(x, p, pos) && p.state == 2 && k >= 2 && pos + k <= m
    requires q.state == 3 && q.boundary == p.boundary && q.view == x.w[pos + k..m]
    requires q.items == p.items + [Item(q.file, "")]
    requires Break(x.w, pos + k) && Break(x.w, pos + k - 2)
    ensures Astray(x, q, m, pos + k)
  {
    assert q.items[|q.items| - 1].content == "" && x.w[pos + k..pos + k] == "";
  }

  lemma BreakWithin(w: string, pos: nat, m: nat, k: nat)
    requires pos <= m <= |w|
    ensures Break(w[pos..m], k) ==> Break(w, pos + k)
  {
  }

  lemma NearHeader(x: Written, p: Parser, check: Check, m: nat, pos: nat) returns (pos': nat)
    requires Faithful(x) && Astray(x, p, m, pos) && p.state == 2 && Near(x, p, pos)
    ensures StillAstray(x, HeaderState(p, check), m, pos')
  {
    pos' := pos;
    HeadersUnfold(p.view, p.file, check);
    BreakBefore(x.items, x.boundary, 0);
    if |p.view| >= 2 {
      BreakFirst(x.w, pos, m, p.view);
      MissedType(x.items, HeaderState(p, check));
    }
  }

  lemma BreakFirst(w: string, pos: nat, m: nat, view: string)
    requires pos + 2 <= m <= |w| && view == w[pos..m] && Break(w, pos + 2)
    ensures Find(view, CRLF) == 0
  {
    assert view[0] == '\r' && view[1] == '\n';
    FindIs(view, CRLF, 0);
  }

  /** The item of an empty header block is not one that has a type. */
  lemma MissedType(items: seq<Item>, o: Outcome)
    requires items != [] && items[0].info.contentType != ""
    requires o.Again? ==> o.p.state == 3 && o.p.items == [Item(NO_FILE, "")]
    ensures o.Again? ==> !Toward(items, o.p)
  {
  }

  /** In front of the content of each item there is a line break. */
  lemma BreakBefore(items: seq<Item>, boundary: string, k: nat)
    requires k < |items|
    ensures Break(Serialize(items, boundary), ContentAt(items, boundary, k))
  {
    ContentIsAt(items, boundary, k);
    var e, a := BlockFrom(items, boundary, k);
    BlockEnds(items[k].info);
    BreakInside(Serialize(items, boundary), e, a, HeaderBlock(items[k].info), From(items[k..], boundary));
  }

  lemma BlockFrom(items: seq<Item>, boundary: string, k: nat) returns (e: nat, a: string)
    requires k < |items|
    ensures e <= |Serialize(items, boundary)|
    ensures Serialize(items, boundary)[e..] == a + HeaderBlock(items[k].info) + From(items[k..], boundary)
  {
    SerializeFrom(items[k..], boundary);
    if k == 0 {
      assert items[0..] == items;
      e, a := 0, DashBoundaryCrlf(boundary);
    } else {
      e := BehindContent(items, boundary, k);
      a := CRLF + DashBoundaryCrlf(boundary);
      Reassociate(DashBoundaryCrlf(boundary), HeaderBlock(items[k].info), From(items[k..], boundary));
    }
  }

  lemma BreakInside(w: string, e: nat, a: string, block: string, rest: string)
    requires e <= |w| && w[e..] == a + block + rest && |block| >= 2
    requires block[|block| - 2] == '\r' && block[|block| - 1] == '\n'
    ensures Break(w, |w| - |rest|)
  {
    var at := |w| - |rest|;
    assert w[at - 2] == w[e..][at - 2 - e] == block[|block| - 2];
    assert w[at - 1] == w[e..][at - 1 - e] == block[|block| - 1];
  }

  lemma BodyAstray(x: Written, p: Parser, m: nat, pos: nat) returns (pos': nat)
    requires Faithful(x)
    requires Astray(x, p, m, pos) && p.state == 3
    ensures StillAstray(x, Body(p), m, pos')
  {
    var d := CrlfDashBoundary(p.boundary);
    if Find(p.view, d) < |p.view| {
      pos' := BodyEnds(x, p, m, pos, Find(p.view, d));
    } else {
      pos' := BodyGoesOn(x, p, m, pos, if |p.view| > |d| then |p.view| - |d| else 0);
    }
  }

  lemma BodyEnds(x: Written, p: Parser, m: nat, pos: nat, n: nat) returns (pos': nat)
    requires Faithful(x)
    requires Astray(x, p, m, pos) && p.state == 3
    requires n == Find(p.view, CrlfDashBoundary(p.boundary)) < |p.view|
    ensures StillAstray(x, Body(p), m, pos')
  {
    pos' := pos + n + |CrlfDashBoundary(p.boundary)|;
    var d := CrlfDashBoundary(p.boundary);
    BodyFinds(p, n);
    AtWithin(x.w, d, pos, m, n);
    BehindAt(x.w, p, m, pos, n, pos');
    EndedAstray(x, p, m, pos, n, pos');
  }

  lemma BehindAt(w: string, p: Parser, m: nat, pos: nat, n: nat, end: nat)
    requires StandsAt(w, p, m, pos) && end == pos + n + |CrlfDashBoundary(p.boundary)| <= m
    ensures Behind(p, p.view, n) == p.(view := w[end..m], state := 4, items := Append(p.items, w[pos..pos + n]))
  {
    SlicedAt(w, pos, m, n);
    SlicedAt(w, pos, m, end - pos);
  }

  lemma EndedAstray(x: Written, p: Parser, m: nat, pos: nat, n: nat, end: nat)
    requires Faithful(x) && Astray(x, p, m, pos) && p.state == 3
    requires end == pos + n + |CrlfDashBoundary(p.boundary)| <= m
    requires At(x.w, CrlfDashBoundary(p.boundary), pos + n)
    ensures var q := p.(view := x.w[end..m], state := 4, items := Append(p.items, x.w[pos..pos + n]));
      Toward(x.items, q) ==> Astray(x, q, m, end)
  {
    AppendLast(p.items, x.w[pos..pos + n]);
    LastEndsLate(x, p.items, x.w[pos..pos + n], pos, n);
  }

  lemma LastEndsLate(x: Written, items: seq<Item>, more: string, pos: nat, n: nat)
    requires Faithful(x) && items != [] && |items| <= |x.at| && |more| == n
    requires LateContent(x.w, x.at[|items| - 1], items[|items| - 1].content, pos)
    requires At(x.w, CrlfDashBoundary(x.boundary), pos + n)
    ensures Append(items, more) <= x.items ==>
      |items| < |x.items| && pos + n + |CrlfDashBoundary(x.boundary)| > x.at[|items|]
  {
    AppendWithin(items, more, x.items);
    if Append(items, more) <= x.items {
      EndsLate(x, |items|, items[|items| - 1].content, more, pos, n);
    }
  }

  lemma AppendWithin(items: seq<Item>, more: string, all: seq<Item>)
    requires items != []
    ensures Append(items, more) <= all ==>
      |items| <= |all| && all[|items| - 1].content == items[|items| - 1].content + more
  {
    AppendLast(items, more);
  }

  /** An item that began too late and has the right content ends too late. */
  lemma EndsLate(x: Written, j: nat, content: string, more: string, pos: nat, n: nat)
    requires Faithful(x) && 1 <= j <= |x.items| && LateContent(x.w, x.at[j - 1], content, pos)
    requires content + more == x.items[j - 1].content && |more| == n
    requires At(x.w, CrlfDashBoundary(x.boundary), pos + n)
    ensures j < |x.items| && pos + n + |CrlfDashBoundary(x.boundary)| > x.at[j]
  {
    LateEnds(x, j, pos + n);
  }

  lemma LateEnds(x: Written, j: nat, at: nat)
    requires Faithful(x) && 1 <= j <= |x.items| && at > x.at[j - 1] + |x.items[j - 1].content|
    requires At(x.w, CrlfDashBoundary(x.boundary), at)
    ensures j < |x.items| && at + |CrlfDashBoundary(x.boundary)| > x.at[j]
  {
    AtIs(x, j - 1);
    DelimiterIsLate(x.items, x.boundary, j, at);
    if j < |x.items| {
      AtIs(x, j);
    }
  }

  lemma AtIs(x: Written, k: nat)
    requires Faithful(x) && k < |x.items|
    ensures x.at[k] == ContentAt(x.items, x.boundary, k)
  {
  }

  lemma BodyGoesOn(x: Written, p: Parser, m: nat, pos: nat, n: nat) returns (pos': nat)
    requires Astray(x, p, m, pos) && p.state == 3
    requires Find(p.view, CrlfDashBoundary(p.boundary)) == |p.view|
    requires n == if |p.view| > |CrlfDashBoundary(p.boundary)| then |p.view| - |CrlfDashBoundary(p.boundary)| else 0
    ensures StillAstray(x, Body(p), m, pos')
  {
    pos' := pos + n;
    BodyStops(p);
    SlicedAt(x.w, pos, m, n);
    GoesOnAstray(x, p, m, pos, n);
  }

  lemma GoesOnAstray(x: Written, p: Parser, m: nat, pos: nat, n: nat)
    requires Astray(x, p, m, pos) && p.state == 3 && pos + n <= m
    requires n > 0 ==> pos + n + |CrlfDashBoundary(p.boundary)| <= m
    ensures Astray(x, p.(view := x.w[pos + n..m], items := Append(p.items, x.w[pos..pos + n])), m, pos + n)
  {
    AppendLast(p.items, x.w[pos..pos + n]);
    var j := |p.items|;
    LateMore(x.w, x.at[j - 1], p.items[j - 1].content, pos, n);
  }

  lemma LateMore(w: string, at: nat, content: string, pos: nat, n: nat)
    requires LateContent(w, at, content, pos) && pos + n <= |w|
    ensures LateContent(w, at, content + w[pos..pos + n], pos + n)
  {
    MoreContent(w, pos - |content|, pos, content, n);
  }

  lemma MoreContent(w: string, c: nat, pos: nat, last: string, n: nat)
    requires c <= pos && pos + n <= |w| && w[c..pos] == last
    ensures w[c..pos + n] == last + w[pos..pos + n]
  {
  }

  lemma BehindAstray(x: Written, p: Parser, m: nat, pos: nat) returns (pos': nat)
    requires Astray(x, p, m, pos) && p.state == 4
    ensures StillAstray(x, AfterBoundary(p), m, pos')
  {
    pos' := if AfterBoundary(p).Stop? then pos else if CRLF <= p.view then pos + 2 else m;
    SlicedAt(x.w, pos, m, 2);
  }

  lemma StepAstray(x: Written, p: Parser, check: Check, m: nat, pos: nat) returns (pos': nat)
    requires Faithful(x)
    requires Astray(x, p, m, pos)
    ensures StillAstray(x, Step(p, check), m, pos')
  {
    match p.state {
      case 0 => pos' := InitialAstray(x, p, m, pos);
      case 1 => pos' := pos;
      case 2 => pos' := HeaderAstray(x, p, check, m, pos);
      case 3 => pos' := BodyAstray(x, p, m, pos);
      case _ => pos' := BehindAstray(x, p, m, pos);
    }
  }

  // ----- whole runs

  lemma {:induction false} DriveAstray(x: Written, p: Parser, check: Check, m: nat, pos: nat)
    returns (pos': nat)
    requires Faithful(x)
    requires Astray(x, p, m, pos)
    ensures Drive(p, check).Ok? && Toward(x.items, Drive(p, check).p) ==> Astray(x, Drive(p, check).p, m, pos')
    decreases |p.view|, if p.state == 1 then 1 else 0
  {
    pos' := pos;
    if p.view != "" {
      DriveUnfold(p, check);
      StepToward(x.items, p, check);
      pos' := StepAstray(x, p, check, m, pos);
      if Step(p, check).Again? {
        var p' := Step(p, check).p;
        DriveToward(x.items, p', check);
        if Toward(x.items, p') {
          pos' := DriveAstray(x, p', check, m, pos');
        }
      }
    }
  }

  /** However the rest of the text is cut, what is reported is not the items. */
  lemma FeedAllAstray(x: Written, p: Parser, chunks: seq<string>, check: Check, m: nat, pos: nat)
    requires Faithful(x)
    requires Astray(x, p, m, pos) && m <= |x.w| && x.w[m..] == Concat(chunks)
    ensures FeedAll(p, chunks, check).Ok? ==> FeedAll(p, chunks, check).p.items != x.items
  {
    StartedItem(x, p, m, pos);
    RestAstray(x, p, chunks, check, m, pos);
  }

  lemma StartedItem(x: Written, p: Parser, m: nat, pos: nat)
    requires Astray(x, p, m, pos)
    ensures p.state == 3 ==> p.items != []
  {
  }

  lemma {:induction false} RestAstray(x: Written, p: Parser, chunks: seq<string>, check: Check, m: nat, pos: nat)
    requires Faithful(x)
    requires p.state <= 4 && (p.state == 3 ==> p.items != []) && (Toward(x.items, p) ==> Astray(x, p, m, pos))
    requires m <= |x.w| && x.w[m..] == Concat(chunks)
    ensures FeedAll(p, chunks, check).Ok? ==> FeedAll(p, chunks, check).p.items != x.items
    decreases |chunks|
  {
    FeedAllToward(x.items, p, chunks, check);
    if Toward(x.items, p) {
      if chunks == [] {
        assert m == |x.w|;
        EndIsOther(x, p, pos);
      } else {
        var c, rest := chunks[0], chunks[1..];
        var pos' := FeedAstray(x, p, c, Concat(rest), check, m, pos);
        var r := Feed(p, c, check);
        FeedAllFirst(p, chunks, check, r, rest);
        if r.Ok? {
          RestAstray(x, r.p, rest, check, m + |c|, pos');
        }
      }
    }
  }

  lemma FeedAllFirst(p: Parser, chunks: seq<string>, check: Check, r: Result, rest: seq<string>)
    requires p.state <= 4 && chunks != [] && r == Feed(p, chunks[0], check) && rest == chunks[1..]
    ensures FeedAll(p, chunks, check) == if r.Fail? then Fail else FeedAll(r.p, rest, check)
  {
  }

  /** After a call the parser is astray still, if it is not off the items. */
  ghost predicate CalledAstray(x: Written, r: Result, m: nat, pos: nat) {
    r.Ok? ==>
      && r.p.state <= 4 && (r.p.state == 3 ==> r.p.items != [])
      && (Toward(x.items, r.p) ==> Astray(x, r.p, m, pos))
  }

  lemma FeedAstray(x: Written, p: Parser, c: string, more: string, check: Check, m: nat, pos: nat)
    returns (pos': nat)
    requires Faithful(x)
    requires Astray(x, p, m, pos) && m <= |x.w| && x.w[m..] == c + more
    ensures m + |c| <= |x.w| && x.w[m + |c|..] == more
    ensures CalledAstray(x, Feed(p, c, check), m + |c|, pos')
  {
    var q, m' := WithMore(p, c), m + |c|;
    MoreText(x.w, m, c, more, pos);
    AstrayMore(x, p, q, c, m, m', pos);
    assert Feed(p, c, check) == Drive(q, check);
    pos' := CallAstray(x, q, check, m', pos);
  }

  lemma CallAstray(x: Written, p: Parser, check: Check, m: nat, pos: nat) returns (pos': nat)
    requires Faithful(x) && Astray(x, p, m, pos)
    ensures CalledAstray(x, Drive(p, check), m, pos')
  {
    StartedItem(x, p, m, pos);
    DriveToward(x.items, p, check);
    pos' := DriveAstray(x, p, check, m, pos);
  }

  lemma AstrayMore(x: Written, p: Parser, q: Parser, c: string, m: nat, m': nat, pos: nat)
    requires q == WithMore(p, c) && m' == m + |c|
    requires Astray(x, p, m, pos) && m' <= |x.w| && x.w[pos..m] + c == x.w[pos..m']
    ensures Astray(x, q, m', pos)
  {
  }

  lemma MoreText(w: string, m: nat, c: string, rest: string, pos: nat)
    requires pos <= m <= |w| && w[m..] == c + rest
    ensures m + |c| <= |w| && w[pos..m] + c == w[pos..m + |c|] && w[m + |c|..] == rest
  {
    assert w[m..][..|c|] == c && w[m..][|c|..] == rest;
  }

  lemma {:induction false} FeedAllToward(items: seq<Item>, p: Parser, chunks: seq<string>, check: Check)
    requires p.state <= 4 && (p.state == 3 ==> p.items != [])
    ensures var r := FeedAll(p, chunks, check); r.Ok? && r.p.items == items ==> Toward(items, p)
    decreases |chunks|
  {
    if chunks != [] {
      var pc := p.(view := p.view + chunks[0]);
      DriveToward(items, pc, check);
      if Drive(pc, check).Ok? {
        FeedAllToward(items, Drive(pc, check).p, chunks[1..], check);
      }
    }
  }

  // ----- the end of the text

  /** At the end of the text a parser astray has not reported the items. */
  lemma EndIsOther(x: Written, p: Parser, pos: nat)
    requires Faithful(x) && Astray(x, p, |x.w|, pos)
    ensures p.items != x.items
  {
    if p.items == x.items && p.state == 3 {
      LastNotLate(x, |x.items| - 1, pos, |p.view|);
    }
  }

  lemma LastNotLate(x: Written, k: nat, pos: nat, kept: nat)
    requires Faithful(x) && k + 1 == |x.items| && pos + kept == |x.w|
    requires x.items[k].content != "" ==> kept >= |CrlfDashBoundary(x.boundary)|
    ensures !LateContent(x.w, x.at[k], x.items[k].content, pos)
  {
    LastOf(x, k);
    LastContent(x.w, x.at[k], x.items[k].content, x.boundary, pos, kept);
  }

  lemma LastOf(x: Written, k: nat)
    requires Faithful(x) && k + 1 == |x.items|
    ensures Break(x.w, x.at[k])
    ensures x.w[x.at[k]..] == x.items[k].content + (CRLF + (DASH + x.boundary + DASH + CRLF))
  {
    AtIs(x, k);
    LastText(x.items, x.boundary, k, x.w, x.at[k]);
  }

  lemma LastContent(w: string, at: nat, content: string, boundary: string, pos: nat, kept: nat)
    requires BoundaryOk(boundary) && Break(w, at) && pos + kept == |w|
    requires w[at..] == content + (CRLF + (DASH + boundary + DASH + CRLF))
    requires content != "" ==> kept >= |CrlfDashBoundary(boundary)|
    ensures !LateContent(w, at, content, pos)
  {
    if LateContent(w, at, content, pos) {
      Shifted(w, at, content, boundary, pos - |content|);
    }
  }

  lemma LastText(items: seq<Item>, boundary: string, k: nat, w: string, at: nat)
    requires k + 1 == |items| && w == Serialize(items, boundary) && at == ContentAt(items, boundary, k)
    ensures Break(w, at) && w[at..] == items[k].content + (CRLF + (DASH + boundary + DASH + CRLF))
  {
    ContentIsAt(items, boundary, k);
    BreakBefore(items, boundary, k);
    FromIs(items, boundary, k + 1);
    assert items[k + 1..] == [];
  }

  /** The last content cannot be found again further on: at most four characters
      further, since the delimiter's length stays in the buffer, and not four
      either, since then it would consist of line breaks and the dashes behind it
      would be in it. */
  lemma Shifted(w: string, at: nat, content: string, boundary: string, c: nat)
    requires BoundaryOk(boundary) && Break(w, at)
    requires w[at..] == content + (CRLF + (DASH + boundary + DASH + CRLF))
    requires at + 2 < c && c + |content| <= |w|
    requires Break(w, c) && Break(w, c - 2)
    requires content != "" ==> |w| - (c + |content|) >= |CrlfDashBoundary(boundary)|
    ensures w[c..c + |content|] != content
  {
    var t := w[at..];
    if content == "" {
      NoBreakTwice(boundary, c - 4 - at);
    } else {
      assert c == at + 4;
      assert t[0] == '\r' && t[1] == '\n' && t[2] == '\r' && t[3] == '\n';
      SlicedFrom(w, at, 4, 4 + |content|);
      NotPeriodic(t, content, CRLF + (DASH + boundary + DASH + CRLF));
    }
  }

  lemma SlicedFrom(w: string, at: nat, i: nat, j: nat)
    requires at <= |w| && i <= j <= |w| - at
    ensures w[at..][i..j] == w[at + i..at + j]
  {
  }

  /** In the closing delimiter line no CRLF follows another. */
  lemma NoBreakTwice(boundary: string, o: nat)
    requires BoundaryOk(boundary)
    ensures var t := CRLF + (DASH + boundary + DASH + CRLF);
      o + 4 <= |t| ==> t[o] != '\r' || t[o + 2] != '\r'
  {
  }

  lemma NotPeriodic(t: string, content: string, end: string)
    requires t == content + end && |end| >= 4 && end[2] == '-'
    requires |t| >= 4 && t[0] == '\r' && t[1] == '\n' && t[2] == '\r' && t[3] == '\n'
    ensures t[4..4 + |content|] != content
  {
    if t[4..4 + |content|] == content {
      assert t[|content| + 2] == '-';
      forall i | 0 <= i < |content| ensures t[i + 4] == t[i] {
        assert t[i + 4] == t[4..4 + |content|][i];
      }
      AllBreaks(t, |content|, |content| + 2);
    }
  }

  lemma {:induction false} AllBreaks(t: string, n: nat, i: nat)
    requires n + 4 <= |t| && i < n + 4
    requires t[0] == '\r' && t[1] == '\n' && t[2] == '\r' && t[3] == '\n'
    requires forall k :: 0 <= k < n ==> t[k + 4] == t[k]
    ensures t[i] == '\r' || t[i] == '\n'
    decreases i
  {
    if i >= 4 {
      AllBreaks(t, n, i - 4);
      assert t[i - 4 + 4] == t[i - 4];
    }
  }

  // ----- the exact condition of the round trip

  /** The first chunk that is not empty, "" if all are. */
  function FirstChunkOf(chunks: seq<string>): string {
    if chunks == [] then "" else if chunks[0] != "" then chunks[0] else FirstChunkOf(chunks[1..])
  }

  /** Too short a first chunk: the opening delimiter line is lost. */
  lemma OpeningMissed(items: seq<Item>, boundary: string, limit: nat, chunks: seq<string>, check: Check)
    requires items != [] && BoundaryOk(boundary) && ItemsOk(items, boundary)
    requires Concat(chunks) == Serialize(items, boundary)
    requires chunks != [] && 0 < |chunks[0]| < |DashBoundaryCrlf(boundary)|
    ensures var r := FeedAll(Start(boundary, limit), chunks, check); r.Ok? ==> r.p.items != items
  {
    var w, p, c := Serialize(items, boundary), Start(boundary, limit), chunks[0];
    assert p.view + c == c && c[|c|..] == "";
    assert Find(c, DashBoundaryCrlf(boundary)) == |c|;
    assert Feed(p, c, check) == Ok(p);
    assert w[|c|..] == Concat(chunks[1..]);
    assert w[|c|..|c|] == "";
    FeedAllAstray(Layout(items, boundary), p, chunks[1..], check, |c|, |c|);
  }

  /** The law of the parser and the serializer, with its exact condition. For a valid
      boundary, at least one item and no more than the consumer takes, and items
      that can be serialized: however the text is cut, it is parsed without a
      refusal, to a valid end and exactly the items if and only if the first chunk
      that is not empty holds the opening delimiter line. */
  lemma {:induction false} RoundTripExactly(items: seq<Item>, boundary: string, limit: nat, chunks: seq<string>)
    requires items != [] && |items| <= limit
    requires BoundaryOk(boundary) && ItemsOk(items, boundary)
    requires Concat(chunks) == Serialize(items, boundary)
    ensures var r := FeedAll(Start(boundary, limit), chunks, AtEntry);
      r.Ok? && r.p.valid && r.p.items == items
      <==> |FirstChunkOf(chunks)| >= |DashBoundaryCrlf(boundary)|
    decreases |chunks|
  {
    SerializeFrom(items, boundary);
    assert Concat(chunks) != "";
    if chunks[0] == "" {
      assert Concat(chunks) == Concat(chunks[1..]);
      RoundTripExactly(items, boundary, limit, chunks[1..]);
      NothingYet(boundary, limit);
    } else if |chunks[0]| < |DashBoundaryCrlf(boundary)| {
      OpeningMissed(items, boundary, limit, chunks, AtEntry);
    } else {
      RoundTrip(items, boundary, limit, chunks);
    }
  }

  lemma NothingYet(boundary: string, limit: nat)
    ensures Feed(Start(boundary, limit), "", AtEntry) == Ok(Start(boundary, limit))
  {
  }
}
