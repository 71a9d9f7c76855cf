/**
 The streaming multipart/form-data parser of httplib (Httplib/httplib.h), as a
 function of the bytes that are buffered, and its independence from how the
 input is cut into pieces.  The callbacks are those of Server::read_content: a
 header opens an item, unless there are `limit` items already, and content is
 appended to the last item.
 */
module Multipart {
  import opened Prelude
  import opened HttpText

  const DASH: string := "--"

  datatype FileInfo = FileInfo(name: string, filename: string, contentType: string)

  const NO_FILE := FileInfo("", "", "")

  datatype Item = Item(info: FileInfo, content: string)

  /** When the length of a header line is checked.  The source does so once, on
      whatever is buffered, whenever it comes to the header state (AtEntry).  A
      check of every complete line (PerLine) does not depend on what happens to be
      buffered; it is what the source's check is compared with. */
  datatype Check = AtEntry | PerLine

  datatype Parser = Parser(
    boundary: string,
    limit: nat,
    state: nat,
    view: string,      // the buffered bytes
    valid: bool,
    file: FileInfo,
    items: seq<Item>)

  datatype Result = Ok(p: Parser) | Fail

  function DashBoundaryCrlf(boundary: string): string { DASH + boundary + CRLF }

  function CrlfDashBoundary(boundary: string): string { CRLF + DASH + boundary }

  function Start(boundary: string, limit: nat): Parser {
    Parser(boundary, limit, 0, "", false, NO_FILE, [])
  }

  // ----- header lines

  /** parse_disposition_params: the parameters in order; cache holds the pieces
      already seen. */
  function Params(pieces: seq<string>, cache: set<string>): seq<(string, string)> {
    if pieces == [] then []
    else if pieces[0] in cache then Params(pieces[1..], cache)
    else
      var tokens := Split(pieces[0], '=');
      (if tokens == [] then [] else
       [(TrimDoubleQuotes(tokens[0]), TrimDoubleQuotes(if |tokens| > 1 then tokens[|tokens| - 1] else ""))])
      + Params(pieces[1..], cache + {pieces[0]})
  }

  function Lookup(params: seq<(string, string)>, key: string): Option<string> {
    if params == [] then None
    else if params[0].0 == key then Some(params[0].1)
    else Lookup(params[1..], key)
  }

  const CONTENT_TYPE: string := "Content-Type:"
  const CONTENT_DISPOSITION: string := "Content-Disposition:"
  const FORM_DATA: string := "form-data;"
  const RFC5987: string := "UTF-8''"

  /** The parameter part of a Content-Disposition line for form data. */
  function Disposition(line: string): Option<string> {
    if !StartsWithIgnoringCase(line, CONTENT_DISPOSITION) then None else
    var rest := SkipSpace(line[|CONTENT_DISPOSITION|..]);
    if !StartsWithIgnoringCase(rest, FORM_DATA) then None else
    Some(SkipSpace(rest[|FORM_DATA|..]))
  }

  /** What the parameters of a Content-Disposition line do to the file information;
      None if they are refused. */
  function ApplyParams(params: seq<(string, string)>, file: FileInfo): Option<FileInfo> {
    var name := Lookup(params, "name");
    if name.None? then None else
    var filename := Lookup(params, "filename");
    var file1 := file.(name := name.value, filename := if filename.Some? then filename.value else file.filename);
    var extended := Lookup(params, "filename*");
    if extended.None? then Some(file1)
    else if StartsWithIgnoringCase(extended.value, RFC5987) && |extended.value| > |RFC5987| then
      Some(file1.(filename := DecodeUrl(extended.value[|RFC5987|..], false)))
    else None
  }

  /** What one header line does to the file information; None if it is refused. */
  function ParseLine(line: string, file: FileInfo): Option<FileInfo> {
    if !IsHeader(line) then None
    else if StartsWithIgnoringCase(line, CONTENT_TYPE) then
      Some(file.(contentType := Trim(line[|CONTENT_TYPE|..])))
    else
      match Disposition(line)
      case None => Some(file)
      case Some(text) => ApplyParams(Params(Split(text, ';'), {}), file)
  }

  datatype Headers = More(view: string, file: FileInfo) | Begins(view: string, file: FileInfo) | Refused

  /** The header lines that are complete in the buffer: either more are needed, or
      the empty line was found and the body begins, or a line is refused. */
  function ParseHeaders(view: string, file: FileInfo, check: Check): (r: Headers)
    ensures r.Begins? ==> |r.view| < |view|
    ensures r.More? ==> |r.view| <= |view|
    decreases |view|
  {
    var pos := Find(view, CRLF);
    if pos == |view| then More(view, file)
    else if pos == 0 then Begins(view[|CRLF|..], file)
    else if check.PerLine? && pos >= HEADER_MAX then Refused
    else
      match ParseLine(view[..pos], file)
      case None => Refused
      case Some(file') => ParseHeaders(view[pos + |CRLF|..], file', check)
  }

  /** The header lines, one at a time. */
  lemma HeadersUnfold(view: string, file: FileInfo, check: Check)
    ensures var pos := Find(view, CRLF);
      ParseHeaders(view, file, check) ==
        if pos == |view| then More(view, file)
        else if pos == 0 then Begins(view[|CRLF|..], file)
        else if check.PerLine? && pos >= HEADER_MAX then Refused
        else match ParseLine(view[..pos], file)
             case None => Refused
             case Some(file') => ParseHeaders(view[pos + |CRLF|..], file', check)
  {
  }

  // ----- one pass through the loop

  datatype Outcome = Again(p: Parser) | Stop(r: Result)

  /** Content is appended to the last item. */
  function Append(items: seq<Item>, data: string): seq<Item> {
    if items == [] then [] else
    var last := |items| - 1;
    items[last := items[last].(content := items[last].content + data)]
  }

  function Initial(p: Parser): Outcome {
    var delimiter := DashBoundaryCrlf(p.boundary);
    var view := p.view[Find(p.view, delimiter)..];
    if |delimiter| > |view| then Stop(Ok(p.(view := view)))
    else Again(p.(view := view[|delimiter|..], state := 1))
  }

  function HeaderState(p: Parser, check: Check): Outcome {
    if check.AtEntry? && Find(p.view, CRLF) > HEADER_MAX then Stop(Fail) else
    match ParseHeaders(p.view, p.file, check)
    case Refused => Stop(Fail)
    case More(view, file) => Stop(Ok(p.(view := view, file := file)))
    case Begins(view, file) =>
      if |p.items| >= p.limit then Stop(Fail)
      else Again(p.(view := view, file := file, state := 3, items := p.items + [Item(file, "")]))
  }

  function Body(p: Parser): Outcome {
    var delimiter := CrlfDashBoundary(p.boundary);
    if |delimiter| > |p.view| then Stop(Ok(p)) else
    var pos := Find(p.view, delimiter);
    if pos < |p.view| then
      Again(p.(view := p.view[pos + |delimiter|..], state := 4, items := Append(p.items, p.view[..pos])))
    else
      var len := |p.view| - |delimiter|;
      Stop(Ok(p.(view := p.view[len..], items := if len > 0 then Append(p.items, p.view[..len]) else p.items)))
  }

  function AfterBoundary(p: Parser): Outcome {
    if |CRLF| > |p.view| then Stop(Ok(p))
    else if CRLF <= p.view then Again(p.(view := p.view[|CRLF|..], state := 1))
    else if |DASH| > |p.view| then Stop(Ok(p))
    else if DASH <= p.view then Again(p.(view := "", valid := true))
    else Stop(Ok(p))
  }

  function Step(p: Parser, check: Check): Outcome
    requires p.state <= 4
  {
    match p.state
    case 0 => Initial(p)
    case 1 => Again(p.(file := NO_FILE, state := 2))
    case 2 => HeaderState(p, check)
    case 3 => Body(p)
    case _ => AfterBoundary(p)
  }

  /** The parse loop. */
  function Drive(p: Parser, check: Check): (r: Result)
    requires p.state <= 4
    ensures r.Ok? ==> r.p.state <= 4 && (r.p.boundary, r.p.limit) == (p.boundary, p.limit)
    ensures r.Ok? && p.valid ==> r.p.valid
    ensures r.Ok? && p.state >= 1 ==> r.p.state >= 1
    decreases |p.view|, if p.state == 1 then 1 else 0
  {
    if p.view == "" then Ok(p) else
    match Step(p, check)
    case Stop(r) => r
    case Again(p') => Drive(p', check)
  }

  lemma DriveUnfold(p: Parser, check: Check)
    requires p.state <= 4 && p.view != ""
    ensures Step(p, check).Stop? ==> Drive(p, check) == Step(p, check).r
    ensures Step(p, check).Again? ==>
      && Step(p, check).p.state <= 4 && Drive(p, check) == Drive(Step(p, check).p, check)
      && (|Step(p, check).p.view| < |p.view|
          || (|Step(p, check).p.view| == |p.view| && p.state == 1 && Step(p, check).p.state != 1))
  {
  }

  /** One call of parse. */
  function Feed(p: Parser, data: string, check: Check): Result
    requires p.state <= 4
  {
    Drive(p.(view := p.view + data), check)
  }

  /** Successive calls of parse; the caller stops after a refusal. */
  function FeedAll(p: Parser, chunks: seq<string>, check: Check): (r: Result)
    requires p.state <= 4
    ensures r.Ok? ==> r.p.state <= 4 && (r.p.boundary, r.p.limit) == (p.boundary, p.limit)
    ensures r.Ok? && p.valid ==> r.p.valid
    ensures r.Ok? && p.state >= 1 ==> r.p.state >= 1
    decreases |chunks|
  {
    if chunks == [] then Ok(p) else
    match Feed(p, chunks[0], check)
    case Fail => Fail
    case Ok(p') => FeedAll(p', chunks[1..], check)
  }
}
