/** Parsing what serialize_multipart_formdata wrote gives the items back, however
    the bytes arrive (RFC 7578 section 4, RFC 2046 section 5.1.1). */
module MultipartRoundTrip {
  import opened Prelude
  import opened HttpText
  import opened Multipart
  import opened MultipartChunks
  import opened MultipartIndependence

  // ----- the serializer

  /** key="value" */
  function Param(key: string, value: string): string { key + ['='] + Quoted(value) }

  function Quoted(value: string): string { ['"'] + value + ['"'] }

  /** The parameters behind "Content-Disposition: form-data; " */
  function ParameterText(info: FileInfo): string {
    Param("name", info.name) + if info.filename == "" then [] else [';', ' '] + Param("filename", info.filename)
  }

  function DispositionLine(info: FileInfo): string {
    CONTENT_DISPOSITION + [' '] + FORM_DATA + [' '] + ParameterText(info)
  }

  function TypeLine(info: FileInfo): string {
    CONTENT_TYPE + [' '] + info.contentType
  }

  /** The header lines of an item with the empty line. */
  function HeaderBlock(info: FileInfo): string {
    DispositionLine(info) + CRLF + (if info.contentType == "" then [] else TypeLine(info) + CRLF) + CRLF
  }

  function Serialize(items: seq<Item>, boundary: string): string {
    if items == [] then DASH + boundary + DASH + CRLF else
    DashBoundaryCrlf(boundary) + HeaderBlock(items[0].info) + items[0].content + CRLF
    + Serialize(items[1..], boundary)
  }

  lemma Literals()
    ensures "Content-Disposition: form-data; name=\"" == CONTENT_DISPOSITION + [' '] + FORM_DATA + [' '] + ("name" + ['=', '"'])
    ensures "; filename=\"" == [';', ' '] + ("filename" + ['=', '"'])
    ensures "Content-Type: " == CONTENT_TYPE + [' ']
  {
  }

  lemma Assemble(info: FileInfo, head: string, middle: string, typ: string)
    requires head == CONTENT_DISPOSITION + [' '] + FORM_DATA + [' '] + ("name" + ['=', '"'])
    requires middle == [';', ' '] + ("filename" + ['=', '"'])
    requires typ == CONTENT_TYPE + [' ']
    ensures head + info.name + ['"'] + (if info.filename == "" then [] else middle + info.filename + ['"'])
         == DispositionLine(info)
    ensures typ + info.contentType == TypeLine(info)
  {
  }

  /** serialize_multipart_formdata_item_begin */
  method SerializeItemBegin(item: Item, boundary: string) returns (body: string)
    ensures body == DashBoundaryCrlf(boundary) + HeaderBlock(item.info)
  {
    var info := item.info;
    var disposition := "Content-Disposition: form-data; name=\"" + info.name + ['"'];
    disposition := disposition + if info.filename != "" then "; filename=\"" + info.filename + ['"'] else [];
    Literals();
    Assemble(info, "Content-Disposition: form-data; name=\"", "; filename=\"", "Content-Type: ");
    body := DASH + boundary + CRLF + (disposition + CRLF);
    if info.contentType != "" {
      body := body + ("Content-Type: " + info.contentType + CRLF);
    }
    body := body + CRLF;
    Regroup(DashBoundaryCrlf(boundary), disposition + CRLF, TypeLine(info) + CRLF, CRLF);
  }

  lemma Regroup(a: string, b: string, c: string, d: string)
    ensures a + b + c + d == a + (b + c + d)
    ensures a + b + d == a + (b + [] + d)
  {
  }

  /** serialize_multipart_formdata */
  method SerializeMultipartFormdata(items: seq<Item>, boundary: string) returns (body: string)
    ensures body == Serialize(items, boundary)
  {
    body := "";
    ghost var left := items;
    for i := 0 to |items|
      invariant left == items[i..] && body + Serialize(left, boundary) == Serialize(items, boundary)
    {
      var begin := SerializeItemBegin(items[i], boundary);
      MoreItems(body, left, boundary);
      body := body + begin + (items[i].content + CRLF);
      left := left[1..];
    }
    body := body + (DASH + boundary + DASH + CRLF);
  }

  lemma MoreItems(body: string, left: seq<Item>, boundary: string)
    requires left != []
    ensures body + (DashBoundaryCrlf(boundary) + HeaderBlock(left[0].info)) + (left[0].content + CRLF)
            + Serialize(left[1..], boundary) == body + Serialize(left, boundary)
  {
    Regroup(body, DashBoundaryCrlf(boundary) + HeaderBlock(left[0].info), left[0].content + CRLF,
            Serialize(left[1..], boundary));
    AppendAssoc(DashBoundaryCrlf(boundary) + HeaderBlock(left[0].info), left[0].content, CRLF);
  }

  // ----- what can be serialized

  /** is_multipart_boundary_chars_valid */
  predicate BoundaryOk(boundary: string) {
    forall i :: 0 <= i < |boundary| ==>
      var c := boundary[i];
      '0' <= c <= '9' || 'a' <= c <= 'z' || 'A' <= c <= 'Z' || c == '-' || c == '_'
  }

  /** Names that the quoted parameters carry, in a line that parse_header accepts. */
  predicate NamesOk(info: FileInfo) {
    && ';' !in info.name && '=' !in info.name && ';' !in info.filename && '=' !in info.filename
    && ValueOk(DispositionValue(info))
  }

  function DispositionValue(info: FileInfo): string { FORM_DATA + [' '] + ParameterText(info) }

  /** A type that trimming leaves alone, in a line that parse_header accepts. */
  predicate TypeOk(contentType: string) { Trimmed(contentType) && ValueOk(contentType) }

  predicate ItemOk(item: Item, boundary: string) {
    && NamesOk(item.info) && TypeOk(item.info.contentType)
    && |DispositionLine(item.info)| < HEADER_MAX && |TypeLine(item.info)| < HEADER_MAX
    && Find(item.content, CrlfDashBoundary(boundary)) == |item.content|
  }

  predicate ItemsOk(items: seq<Item>, boundary: string) {
    forall i :: 0 <= i < |items| ==> ItemOk(items[i], boundary)
  }

  // ----- header lines

  lemma SplitParameter(key: string, value: string)
    requires key != [] && Trimmed(key) && '=' !in key && '=' !in value
    ensures Split(Param(key, value), '=') == [key, Quoted(value)]
  {
    SplitCons(key, '=', Quoted(value));
    TrimTrimmed(key);
    SplitOne(Quoted(value), '=');
    TrimTrimmed(Quoted(value));
  }

  lemma UnquoteQuoted(value: string)
    ensures TrimDoubleQuotes(Quoted(value)) == value
  {
  }

  /** A parameter piece gives its key and its unquoted value. */
  lemma ParamsCons(key: string, value: string, rest: seq<string>, cache: set<string>)
    requires key != [] && key[0] != '"' && Trimmed(key) && '=' !in key && '=' !in value
    requires Param(key, value) !in cache
    ensures Params([Param(key, value)] + rest, cache)
         == [(key, value)] + Params(rest, cache + {Param(key, value)})
  {
    var pieces := [Param(key, value)] + rest;
    assert pieces[0] == Param(key, value) && pieces[1..] == rest;
    SplitParameter(key, value);
    UnquoteQuoted(value);
  }

  lemma ParamTrimmed(key: string, value: string)
    requires key != [] && Trimmed(key)
    ensures Param(key, value) != [] && Trimmed(Param(key, value))
    ensures Trim([' '] + Param(key, value)) == Trim(Param(key, value)) == Param(key, value)
  {
  }

  lemma OneParam(key: string, value: string)
    requires key != [] && key[0] != '"' && Trimmed(key) && '=' !in key && '=' !in value
    requires ';' !in key && ';' !in value
    ensures Params(Split(Param(key, value), ';'), {}) == [(key, value)]
  {
    SplitOne(Param(key, value), ';');
    ParamTrimmed(key, value);
    ParamsCons(key, value, [], {});
    assert [Param(key, value)] + [] == [Param(key, value)];
  }

  lemma SplitTwo(first: string, second: string)
    requires ';' !in first && ';' !in second
    requires Trim(first) == first != [] && Trim([' '] + second) == second != []
    ensures Split(first + ([';', ' '] + second), ';') == [first, second]
  {
    assert first + ([';', ' '] + second) == first + [';'] + ([' '] + second);
    SplitCons(first, ';', [' '] + second);
    SplitOne([' '] + second, ';');
  }

  lemma TwoParams(key: string, value: string, key': string, value': string)
    requires key != [] && key[0] != '"' && Trimmed(key) && '=' !in key && '=' !in value
    requires key' != [] && key'[0] != '"' && Trimmed(key') && '=' !in key' && '=' !in value'
    requires key[0] != key'[0]
    ensures Params([Param(key, value), Param(key', value')], {}) == [(key, value), (key', value')]
  {
    var first, second := Param(key, value), Param(key', value');
    assert [first] + [second] == [first, second];
    ParamsCons(key, value, [second], {});
    assert first[0] != second[0];
    ParamsCons(key', value', [], {} + {first});
    assert [second] + [] == [second];
  }

  lemma BothParams(key: string, value: string, key': string, value': string)
    requires key != [] && key[0] != '"' && Trimmed(key) && '=' !in key && ';' !in key
    requires key' != [] && key'[0] != '"' && Trimmed(key') && '=' !in key' && ';' !in key'
    requires '=' !in value && ';' !in value && '=' !in value' && ';' !in value'
    requires key[0] != key'[0]
    ensures Params(Split(Param(key, value) + ([';', ' '] + Param(key', value')), ';'), {})
         == [(key, value), (key', value')]
  {
    ParamTrimmed(key, value);
    ParamTrimmed(key', value');
    SplitTwo(Param(key, value), Param(key', value'));
    TwoParams(key, value, key', value');
  }

  function NamePairs(info: FileInfo): seq<(string, string)> {
    if info.filename == "" then [("name", info.name)] else [("name", info.name), ("filename", info.filename)]
  }

  lemma NameParams(info: FileInfo)
    requires NamesOk(info)
    ensures Params(Split(ParameterText(info), ';'), {}) == NamePairs(info)
  {
    if info.filename == "" {
      assert ParameterText(info) == Param("name", info.name);
      OneParam("name", info.name);
    } else {
      BothParams("name", info.name, "filename", info.filename);
    }
  }

  lemma SkipOneSpace(text: string)
    requires text != [] && !IsSpace(text[0])
    ensures SkipSpace([' '] + text) == text
  {
  }

  lemma StartsWithItself(a: string, b: string)
    ensures StartsWithIgnoringCase(a + b, a) && (a + b)[|a|..] == b
  {
  }

  lemma DispositionIs(info: FileInfo)
    ensures Disposition(DispositionLine(info)) == Some(ParameterText(info))
    ensures !StartsWithIgnoringCase(DispositionLine(info), CONTENT_TYPE)
  {
    var line, text := DispositionLine(info), ParameterText(info);
    var rest := FORM_DATA + ([' '] + text);
    assert line == CONTENT_DISPOSITION + ([' '] + rest);
    assert line[8] == CONTENT_DISPOSITION[8] == 'D' && CONTENT_TYPE[8] == 'T';
    StartsWithItself(CONTENT_DISPOSITION, [' '] + rest);
    assert rest[0] == FORM_DATA[0] == 'f' && text[0] == 'n';
    SkipOneSpace(rest);
    StartsWithItself(FORM_DATA, [' '] + text);
    SkipOneSpace(text);
  }

  lemma DispositionIsHeader(info: FileInfo)
    requires NamesOk(info)
    ensures IsHeader(DispositionLine(info))
  {
    var value := DispositionValue(info);
    var name := "Content-Disposition";
    assert CONTENT_DISPOSITION == name + [':'];
    assert DispositionLine(info) == name + ": " + value;
    assert value[0] == FORM_DATA[0] == 'f' && value[|value| - 1] == '"';
    PlainHeader(name, value);
  }

  lemma LookupOne(k: string, v: string, key: string)
    ensures Lookup([(k, v)], key) == if k == key then Some(v) else None
  {
  }

  lemma LookupTwo(k: string, v: string, k': string, v': string, key: string)
    ensures Lookup([(k, v), (k', v')], key) == if k == key then Some(v) else if k' == key then Some(v') else None
  {
    assert [(k, v), (k', v')][1..] == [(k', v')];
    LookupOne(k', v', key);
  }

  lemma KeysDiffer()
    ensures "name" != "filename" && "name" != "filename*" && "filename" != "filename*"
  {
  }

  lemma ApplyNames(info: FileInfo, file: FileInfo)
    ensures ApplyParams(NamePairs(info), file) ==
      Some(file.(name := info.name, filename := if info.filename == "" then file.filename else info.filename))
  {
    KeysDiffer();
    if info.filename == "" {
      LookupOne("name", info.name, "name");
      LookupOne("name", info.name, "filename");
      LookupOne("name", info.name, "filename*");
    } else {
      LookupTwo("name", info.name, "filename", info.filename, "name");
      LookupTwo("name", info.name, "filename", info.filename, "filename");
      LookupTwo("name", info.name, "filename", info.filename, "filename*");
    }
  }

  lemma ParseDisposition(info: FileInfo, file: FileInfo)
    requires NamesOk(info)
    ensures ParseLine(DispositionLine(info), file) ==
      Some(file.(name := info.name, filename := if info.filename == "" then file.filename else info.filename))
  {
    DispositionIs(info);
    DispositionIsHeader(info);
    NameParams(info);
    ApplyNames(info, file);
  }

  lemma TypeIsHeader(info: FileInfo)
    requires TypeOk(info.contentType) && info.contentType != ""
    ensures IsHeader(TypeLine(info))
  {
    var name := "Content-Type";
    assert CONTENT_TYPE == name + [':'];
    assert TypeLine(info) == name + ": " + info.contentType;
    PlainHeader(name, info.contentType);
  }

  lemma ParseType(info: FileInfo, file: FileInfo)
    requires TypeOk(info.contentType) && info.contentType != ""
    ensures ParseLine(TypeLine(info), file) == Some(file.(contentType := info.contentType))
  {
    TypeIsHeader(info);
    TypeIs(info, TypeLine(info));
    TypeSets(TypeLine(info), file);
  }

  /** What a line that begins with Content-Type: does. */
  lemma TypeSets(line: string, file: FileInfo)
    requires IsHeader(line) && StartsWithIgnoringCase(line, CONTENT_TYPE)
    ensures ParseLine(line, file) == Some(file.(contentType := Trim(line[|CONTENT_TYPE|..])))
  {
  }

  lemma TypeIs(info: FileInfo, line: string)
    requires TypeOk(info.contentType) && info.contentType != "" && line == TypeLine(info)
    ensures StartsWithIgnoringCase(line, CONTENT_TYPE) && Trim(line[|CONTENT_TYPE|..]) == info.contentType
  {
    var value := [' '] + info.contentType;
    BehindPrefix(line, CONTENT_TYPE, value);
    TrimOneSpace(info.contentType);
  }

  lemma BehindPrefix(line: string, prefix: string, value: string)
    requires line == prefix + value
    ensures StartsWithIgnoringCase(line, prefix) && line[|prefix|..] == value
  {
    StartsWithItself(prefix, value);
  }

  lemma TrimOneSpace(s: string)
    requires Trimmed(s) && s != ""
    ensures Trim([' '] + s) == s
  {
    TrimTrimmed(s);
    assert ([' '] + s)[1..] == s;
  }

  // ----- the header block

  /** One accepted line in front of more header text. */
  lemma OneLine(line: string, rest: string, file: FileInfo, file': FileInfo)
    requires line != [] && '\r' !in line && |line| < HEADER_MAX
    requires ParseLine(line, file) == Some(file')
    ensures ParseHeaders(line + CRLF + rest, file, PerLine) == ParseHeaders(rest, file', PerLine)
  {
    LineFound(line, rest);
  }

  lemma EmptyLine(rest: string, file: FileInfo)
    ensures ParseHeaders(CRLF + rest, file, PerLine) == Begins(rest, file)
  {
  }

  lemma NoReturns(info: FileInfo)
    requires NamesOk(info) && TypeOk(info.contentType)
    ensures '\r' !in DispositionLine(info) && '\r' !in TypeLine(info)
  {
    BreakStays(DispositionValue(info));
    BreakStays(info.contentType);
    assert DispositionLine(info) == CONTENT_DISPOSITION + ([' '] + DispositionValue(info));
  }

  lemma BlockShape(info: FileInfo, rest: string)
    ensures HeaderBlock(info) + rest == DispositionLine(info) + CRLF +
      if info.contentType == "" then CRLF + rest else TypeLine(info) + CRLF + (CRLF + rest)
  {
  }

  lemma ParseBlock(info: FileInfo, rest: string)
    requires NamesOk(info) && TypeOk(info.contentType)
    requires |DispositionLine(info)| < HEADER_MAX && |TypeLine(info)| < HEADER_MAX
    ensures ParseHeaders(HeaderBlock(info) + rest, NO_FILE, PerLine) == Begins(rest, info)
  {
    BlockShape(info, rest);
    NoReturns(info);
    ParseDisposition(info, NO_FILE);
    ParseLines(info, DispositionLine(info), rest);
  }

  lemma ParseLines(info: FileInfo, line: string, rest: string)
    requires line != [] && '\r' !in line && |line| < HEADER_MAX && |TypeLine(info)| < HEADER_MAX
    requires ParseLine(line, NO_FILE) == Some(NO_FILE.(name := info.name, filename := info.filename))
    requires TypeOk(info.contentType) && '\r' !in TypeLine(info)
    ensures ParseHeaders(line + CRLF + if info.contentType == "" then CRLF + rest else TypeLine(info) + CRLF + (CRLF + rest),
                         NO_FILE, PerLine) == Begins(rest, info)
  {
    var file1 := NO_FILE.(name := info.name, filename := info.filename);
    if info.contentType == "" {
      OneLine(line, CRLF + rest, NO_FILE, file1);
    } else {
      OneLine(line, TypeLine(info) + CRLF + (CRLF + rest), NO_FILE, file1);
      ParseType(info, file1);
      OneLine(TypeLine(info), CRLF + rest, file1, info);
    }
    EmptyLine(rest, info);
  }

  // ----- one item, and all items, in one call

  /** The delimiter has no carriage return but its first character, so it cannot
      begin inside the content. */
  lemma ContentEnds(content: string, boundary: string, rest: string)
    requires BoundaryOk(boundary)
    requires var d := CrlfDashBoundary(boundary); Find(content, d) == |content|
    ensures var d := CrlfDashBoundary(boundary);
      Find(content + d + rest, d) == |content| < |content + d + rest|
  {
    var d := CrlfDashBoundary(boundary);
    var view := content + d + rest;
    assert view[|content|..|content| + |d|] == d;
    forall j | 0 <= j < |content| ensures !At(view, d, j) {
      if j + |d| <= |content| {
        assert view == content + (d + rest);
        AtAppend(content, d + rest, d, j);
      } else {
        var k := |content| - j;
        DelimiterReturns(boundary, k);
        AtHolds(view, d, j, k);
        assert view[j + k] == d[0];
      }
    }
    FindIs(view, d, |content|);
  }

  lemma AtHolds(v: string, s: string, i: nat, k: nat)
    requires k < |s|
    ensures At(v, s, i) ==> v[i + k] == s[k]
  {
  }

  lemma DelimiterReturns(boundary: string, k: nat)
    requires BoundaryOk(boundary) && 0 < k < |CrlfDashBoundary(boundary)|
    ensures CrlfDashBoundary(boundary)[k] != CrlfDashBoundary(boundary)[0]
  {
  }

  /** One item in front of more text: the parser comes to stand behind the
      delimiter that follows, with the item reported. */
  lemma DriveItem(p: Parser, item: Item, rest: string)
    requires p.state == 1 && |p.items| < p.limit
    requires BoundaryOk(p.boundary) && ItemOk(item, p.boundary)
    requires p.view == HeaderBlock(item.info) + (item.content + CrlfDashBoundary(p.boundary) + rest)
    ensures Drive(p, PerLine)
         == Drive(p.(state := 4, view := rest, file := item.info, items := p.items + [item]), PerLine)
  {
    var d := CrlfDashBoundary(p.boundary);
    var body := item.content + d + rest;
    ParseBlock(item.info, body);
    var p2 := p.(file := NO_FILE, state := 2);
    var p3 := p.(state := 3, view := body, file := item.info, items := p.items + [Item(item.info, "")]);
    assert Drive(p, PerLine) == Drive(p2, PerLine);
    assert HeaderState(p2, PerLine) == Again(p3);
    assert Drive(p2, PerLine) == Drive(p3, PerLine);
    DriveContent(p3, p.items, item, rest);
  }

  lemma DriveContent(p: Parser, before: seq<Item>, item: Item, rest: string)
    requires p.state == 3 && p.items == before + [Item(item.info, "")]
    requires BoundaryOk(p.boundary) && ItemOk(item, p.boundary)
    requires p.view == item.content + CrlfDashBoundary(p.boundary) + rest
    ensures Drive(p, PerLine) == Drive(p.(state := 4, view := rest, items := before + [item]), PerLine)
  {
    var d := CrlfDashBoundary(p.boundary);
    ContentEnds(item.content, p.boundary, rest);
    DriveBody(p, PerLine);
    BodyFinds(p, |item.content|);
    assert p.view[..|item.content|] == item.content;
    assert p.view[|item.content| + |d|..] == rest;
    assert "" + item.content == item.content;
    assert Append(p.items, item.content) == before + [item];
  }

  /** What follows the first delimiter line, up to and with the last delimiter,
      and then `rest`. */
  function Tail(items: seq<Item>, boundary: string, rest: string): string
    requires items != []
  {
    HeaderBlock(items[0].info) + (items[0].content + CrlfDashBoundary(boundary)
      + if |items| == 1 then rest else CRLF + Tail(items[1..], boundary, rest))
  }

  lemma {:induction false} SerializeIsTail(items: seq<Item>, boundary: string)
    requires items != []
    ensures Serialize(items, boundary) == DashBoundaryCrlf(boundary) + Tail(items, boundary, DASH + CRLF)
  {
    var block, content, start := HeaderBlock(items[0].info), items[0].content, DashBoundaryCrlf(boundary);
    if |items| == 1 {
      LastDelimiter(boundary);
      Regroup5(start, block, content, CRLF, Serialize([], boundary));
      Regroup5(start, block, content, CrlfDashBoundary(boundary), DASH + CRLF);
    } else {
      SerializeIsTail(items[1..], boundary);
      var tail := Tail(items[1..], boundary, DASH + CRLF);
      NextDelimiter(boundary, tail);
      Regroup5(start, block, content, CRLF, start + tail);
      Regroup5(start, block, content, CrlfDashBoundary(boundary), CRLF + tail);
    }
  }

  lemma LastDelimiter(boundary: string)
    ensures CRLF + Serialize([], boundary) == CrlfDashBoundary(boundary) + (DASH + CRLF)
  {
  }

  lemma NextDelimiter(boundary: string, tail: string)
    ensures CRLF + (DashBoundaryCrlf(boundary) + tail) == CrlfDashBoundary(boundary) + (CRLF + tail)
  {
  }

  lemma Regroup5(a: string, b: string, c: string, d: string, e: string)
    ensures a + b + c + d + e == a + (b + (c + (d + e)))
    ensures a + (b + (c + d + e)) == a + (b + (c + (d + e)))
  {
  }

  /** The parser behind the delimiter that follows the items. */
  function Reported(p: Parser, items: seq<Item>, rest: string): Parser
    requires items != []
  {
    p.(state := 4, view := rest, file := items[|items| - 1].info, items := p.items + items)
  }

  lemma ReportedTwice(p: Parser, items: seq<Item>, tail: string, rest: string)
    requires |items| > 1
    ensures Reported(Reported(p, [items[0]], tail).(state := 1), items[1..], rest) == Reported(p, items, rest)
  {
  }

  /** All items at once. */
  lemma {:induction false} DriveItems(p: Parser, items: seq<Item>, rest: string)
    requires p.state == 1 && items != [] && |p.items| + |items| <= p.limit
    requires BoundaryOk(p.boundary) && ItemsOk(items, p.boundary)
    requires p.view == Tail(items, p.boundary, rest)
    ensures Drive(p, PerLine) == Drive(Reported(p, items, rest), PerLine)
    decreases |items|
  {
    if |items| == 1 {
      assert items == [items[0]];
      DriveItem(p, items[0], rest);
    } else {
      var tail := Tail(items[1..], p.boundary, rest);
      DriveItem(p, items[0], CRLF + tail);
      var p1 := Reported(p, [items[0]], tail).(state := 1);
      DriveNext(p1);
      DriveItems(p1, items[1..], rest);
      ReportedTwice(p, items, tail, rest);
    }
  }

  /** Behind a delimiter, CRLF leads to the next item. */
  lemma DriveNext(p: Parser)
    requires p.state == 1
    ensures Drive(p.(state := 4, view := CRLF + p.view), PerLine) == Drive(p, PerLine)
  {
  }

  // ----- the items in any number of calls

  lemma {:induction false} TailSplit(items: seq<Item>, boundary: string, rest: string)
    requires items != []
    ensures Tail(items, boundary, rest) == Tail(items, boundary, "") + rest
  {
    var block, content, d := HeaderBlock(items[0].info), items[0].content, CrlfDashBoundary(boundary);
    if |items| == 1 {
      SplitOff(block, content + d, rest);
    } else {
      TailSplit(items[1..], boundary, rest);
      SplitMore(block, content + d, Tail(items[1..], boundary, ""), rest);
    }
  }

  lemma SplitOff(a: string, b: string, rest: string)
    ensures a + (b + rest) == a + (b + "") + rest
  {
  }

  lemma SplitMore(a: string, b: string, c: string, rest: string)
    ensures a + (b + (CRLF + (c + rest))) == a + (b + (CRLF + c)) + rest
  {
  }

  /** The parser when it has seen the closing delimiter. */
  function Closed(p: Parser, items: seq<Item>): Parser
    requires items != []
  {
    Reported(p, items, "").(valid := true)
  }

  /** The items and the closing delimiter, and whatever has come behind it. */
  lemma DriveWhole(p: Parser, items: seq<Item>, y: string)
    requires p.state == 1 && items != [] && |p.items| + |items| <= p.limit && !p.valid
    requires BoundaryOk(p.boundary) && ItemsOk(items, p.boundary)
    requires p.view == Tail(items, p.boundary, DASH) + y
    ensures Drive(p, PerLine) == Ok(Closed(p, items))
  {
    var p0 := p.(view := Tail(items, p.boundary, DASH));
    var q := Reported(p0, items, DASH);
    DriveItems(p0, items, DASH);
    DriveClosing(q);
    assert q.(view := "", valid := true) == Closed(p, items);
    assert WithMore(p0, y) == p;
    ClosingDiscards(p0, y);
  }

  /** All but the last dash does not close. */
  lemma DriveAlmost(p: Parser, items: seq<Item>)
    requires p.state == 1 && items != [] && |p.items| + |items| <= p.limit && !p.valid
    requires BoundaryOk(p.boundary) && ItemsOk(items, p.boundary)
    requires p.view == Tail(items, p.boundary, "-")
    ensures !Closes(p)
  {
    DriveItems(p, items, "-");
    DashWaits(Reported(p, items, "-"));
  }

  lemma DashWaits(p: Parser)
    requires p.state == 4 && p.view == "-"
    ensures Drive(p, PerLine) == Ok(p)
  {
    assert |p.view| < |CRLF|;
    assert AfterBoundary(p) == Stop(Ok(p));
  }

  lemma DriveClosing(p: Parser)
    requires p.state == 4 && p.view == DASH
    ensures Drive(p, PerLine) == Ok(p.(view := "", valid := true))
  {
    assert p.view[0] == '-' && CRLF[0] == '\r';
    assert !(CRLF <= p.view) && DASH <= p.view;
    var p' := p.(view := "", valid := true);
    assert Drive(p', PerLine) == Ok(p');
  }

  /** No less than all of the closing delimiter closes. */
  lemma EarlyIsOpen(p: Parser, items: seq<Item>, x: string)
    requires p.state == 1 && items != [] && |p.items| + |items| <= p.limit && !p.valid
    requires BoundaryOk(p.boundary) && ItemsOk(items, p.boundary)
    requires x <= Tail(items, p.boundary, DASH) && |x| < |Tail(items, p.boundary, DASH)|
    ensures !Closes(p.(view := x))
  {
    var almost, px := Tail(items, p.boundary, "-"), p.(view := x);
    TailSplit(items, p.boundary, DASH);
    TailSplit(items, p.boundary, "-");
    OneDashLess(Tail(items, p.boundary, ""), x);
    assert WithMore(px, almost[|x|..]) == p.(view := almost);
    DriveAlmost(p.(view := almost), items);
    if Closes(px) {
      ClosingDiscards(px, almost[|x|..]);
    }
  }

  lemma OneDashLess(t: string, x: string)
    requires x <= t + DASH && |x| < |t + DASH|
    ensures x <= t + "-" && x + (t + "-")[|x|..] == t + "-"
  {
    assert t + "-" == (t + DASH)[..|t| + 1];
  }

  /** After the closing delimiter, what is left of the final CRLF changes nothing
      that was reported. */
  lemma {:induction false} Epilogue(p: Parser, chunks: seq<string>)
    requires p.valid
    requires || (p.state == 4 && p.view + Concat(chunks) in ["", "\n", CRLF])
             || (p.state == 1 && p.view == "" && Concat(chunks) == "")
    ensures var r := FeedAll(p, chunks, AtEntry);
      r.Ok? && r.p.valid && r.p.items == p.items
    decreases |chunks|
  {
    if chunks != [] {
      var c, rest := chunks[0], Concat(chunks[1..]);
      var q := p.(view := p.view + c);
      assert p.view + Concat(chunks) == q.view + rest;
      if q.view == CRLF {
        LastCrlf(q);
        Epilogue(q.(view := "", state := 1), chunks[1..]);
      } else {
        TooShort(q);
        Epilogue(q, chunks[1..]);
      }
    }
  }

  lemma LastCrlf(p: Parser)
    requires p.state == 4 && p.view == CRLF
    ensures Drive(p, AtEntry) == Ok(p.(view := "", state := 1))
  {
    assert p.view[|CRLF|..] == "";
    assert Drive(p.(view := "", state := 1), AtEntry) == Ok(p.(view := "", state := 1));
  }

  lemma TooShort(p: Parser)
    requires p.view == "" || (p.state == 4 && |p.view| == 1)
    requires p.state <= 4
    ensures Drive(p, AtEntry) == Ok(p)
  {
  }

  /** The chunk with which the text reaches n bytes. */
  lemma {:induction false} ReachingChunk(chunks: seq<string>, n: nat) returns (k: nat)
    requires 0 < n <= |Concat(chunks)|
    ensures k < |chunks| && |Concat(chunks[..k])| < n <= |Concat(chunks[..k + 1])|
    decreases |chunks|
  {
    var last := |chunks| - 1;
    ConcatSnoc(chunks);
    if |Concat(chunks[..last])| < n {
      k := last;
      assert chunks[..k + 1] == chunks;
    } else {
      k := ReachingChunk(chunks[..last], n);
      assert chunks[..last][..k] == chunks[..k] && chunks[..last][..k + 1] == chunks[..k + 1];
    }
  }

  /** The chunks up to and with that one, and the others. */
  lemma ReachingPart(chunks: seq<string>, n: nat) returns (first: seq<string>, rest: seq<string>)
    requires 0 < n <= |Concat(chunks)|
    ensures chunks == first + rest && Concat(chunks) == Concat(first) + Concat(rest)
    ensures first != [] && |Concat(first[..|first| - 1])| < n <= |Concat(first)|
  {
    var k := ReachingChunk(chunks, n);
    first, rest := chunks[..k + 1], chunks[k + 1..];
    ConcatSplit(chunks, k + 1);
    assert first[..k] == chunks[..k] && chunks == first + rest;
  }

  /** Up to and with the chunk that completes the closing delimiter. */
  lemma UpToClosing(p: Parser, items: seq<Item>, chunks: seq<string>, y: string)
    requires p.state == 1 && items != [] && |p.items| + |items| <= p.limit && !p.valid && p.view == ""
    requires BoundaryOk(p.boundary) && ItemsOk(items, p.boundary)
    requires chunks != [] && Concat(chunks) == Tail(items, p.boundary, DASH) + y
    requires |Concat(chunks[..|chunks| - 1])| < |Tail(items, p.boundary, DASH)|
    ensures FeedAll(p, chunks, AtEntry) == Ok(Closed(p, items))
  {
    forall i | 0 <= i < |chunks| ensures !Closes(WithMore(p, Concat(chunks[..i]))) {
      BeforeLast(chunks, i, Tail(items, p.boundary, DASH), y);
      EarlyIsOpen(p, items, Concat(chunks[..i]));
      FromNothing(p, Concat(chunks[..i]));
    }
    FromNothing(p, Concat(chunks));
    DriveWhole(p.(view := Concat(chunks)), items, y);
    ChunksAgree(p, chunks);
  }

  lemma BeforeLast(chunks: seq<string>, i: nat, core: string, y: string)
    requires i < |chunks| && Concat(chunks) == core + y && |Concat(chunks[..|chunks| - 1])| < |core|
    ensures Concat(chunks[..i]) <= core && |Concat(chunks[..i])| < |core|
  {
    var init := chunks[..|chunks| - 1];
    ConcatPrefix(init, i);
    ConcatPrefix(chunks, |init|);
    assert init[..i] == chunks[..i];
  }

  lemma FromNothing(p: Parser, x: string)
    requires p.view == ""
    ensures WithMore(p, x) == p.(view := x)
  {
    assert "" + x == x;
  }

  // ----- the opening delimiter

  /** The first chunk, when it holds the opening delimiter line. */
  lemma Opening(boundary: string, limit: nat, x: string)
    ensures Feed(Start(boundary, limit), DashBoundaryCrlf(boundary) + x, AtEntry)
         == Drive(Start(boundary, limit).(state := 1, view := x), AtEntry)
  {
    var d := DashBoundaryCrlf(boundary);
    var view := d + x;
    assert view[0..|d|] == d;
    FindIs(view, d, 0);
    assert view[0..] == view && view[|d|..] == x;
    var p := Start(boundary, limit);
    assert p.view + view == view;
    assert Initial(p.(view := view)) == Again(p.(state := 1, view := x));
  }

  /** The parser and the serializer.  For a valid boundary, at least one item and no
      more than the consumer takes, and items that can be serialized: parsing the
      serialized body in any chunks, the first of which holds the opening delimiter
      line, refuses nothing, ends valid and reports exactly the items, in order. */
  lemma RoundTrip(items: seq<Item>, boundary: string, limit: nat, chunks: seq<string>)
    requires items != [] && |items| <= limit
    requires BoundaryOk(boundary) && ItemsOk(items, boundary)
    requires Concat(chunks) == Serialize(items, boundary)
    requires chunks != [] && |chunks[0]| >= |DashBoundaryCrlf(boundary)|
    ensures var r := FeedAll(Start(boundary, limit), chunks, AtEntry);
      r.Ok? && r.p.valid && r.p.items == items
  {
    var x := chunks[0][|DashBoundaryCrlf(boundary)|..];
    FirstChunk(items, boundary, chunks, x);
    OpenChunks(boundary, limit, chunks, x);
    AfterOpening(items, Opened(boundary, limit), [x] + chunks[1..]);
  }

  /** The parser behind the opening delimiter. */
  function Opened(boundary: string, limit: nat): Parser {
    Start(boundary, limit).(state := 1)
  }

  lemma OpenChunks(boundary: string, limit: nat, chunks: seq<string>, x: string)
    requires chunks != [] && chunks[0] == DashBoundaryCrlf(boundary) + x
    ensures FeedAll(Start(boundary, limit), chunks, AtEntry)
         == FeedAll(Opened(boundary, limit), [x] + chunks[1..], AtEntry)
  {
    Opening(boundary, limit, x);
    var p := Opened(boundary, limit);
    assert p.view + x == x;
    SameFirst(Start(boundary, limit), p, chunks, x);
  }

  lemma AfterOpening(items: seq<Item>, p: Parser, chunks: seq<string>)
    requires p.state == 1 && !p.valid && p.view == "" && p.items == []
    requires items != [] && |items| <= p.limit
    requires BoundaryOk(p.boundary) && ItemsOk(items, p.boundary)
    requires Concat(chunks) == Tail(items, p.boundary, DASH + CRLF)
    ensures var r := FeedAll(p, chunks, AtEntry);
      r.Ok? && r.p.valid && r.p.items == items
  {
    var core := Tail(items, p.boundary, DASH);
    CoreAndEnd(items, p.boundary);
    var first, rest := ReachingPart(chunks, |core|);
    CloseAndEnd(p, items, first, rest);
  }

  lemma CloseAndEnd(p: Parser, items: seq<Item>, first: seq<string>, rest: seq<string>)
    requires p.state == 1 && !p.valid && p.view == "" && p.items == []
    requires items != [] && |items| <= p.limit
    requires BoundaryOk(p.boundary) && ItemsOk(items, p.boundary)
    requires Concat(first) + Concat(rest) == Tail(items, p.boundary, DASH) + CRLF
    requires first != [] && |Concat(first[..|first| - 1])| < |Tail(items, p.boundary, DASH)| <= |Concat(first)|
    ensures var r := FeedAll(p, first + rest, AtEntry);
      r.Ok? && r.p.valid && r.p.items == items
  {
    var y := EndOf(Tail(items, p.boundary, DASH), Concat(first), Concat(rest));
    UpToClosing(p, items, first, y);
    ClosedStays(p, items, rest);
    FeedThrough(p, Closed(p, items), first, rest);
  }

  lemma FeedThrough(p: Parser, q: Parser, first: seq<string>, rest: seq<string>)
    requires p.state <= 4 && q.state <= 4 && FeedAll(p, first, AtEntry) == Ok(q)
    ensures FeedAll(p, first + rest, AtEntry) == FeedAll(q, rest, AtEntry)
  {
    FeedAllConcat(p, first, rest, AtEntry);
  }

  lemma ClosedStays(p: Parser, items: seq<Item>, rest: seq<string>)
    requires p.items == [] && items != [] && p.state <= 4 && Concat(rest) in ["", "\n", CRLF]
    ensures var r := FeedAll(Closed(p, items), rest, AtEntry); r.Ok? && r.p.valid && r.p.items == items
  {
    assert "" + Concat(rest) == Concat(rest);
    Epilogue(Closed(p, items), rest);
  }

  lemma CoreAndEnd(items: seq<Item>, boundary: string)
    requires items != []
    ensures Tail(items, boundary, DASH + CRLF) == Tail(items, boundary, DASH) + CRLF
    ensures Tail(items, boundary, DASH) != ""
  {
    TailSplit(items, boundary, DASH + CRLF);
    TailSplit(items, boundary, DASH);
  }

  /** The final CRLF, cut in two. */
  lemma EndOf(core: string, first: string, rest: string) returns (y: string)
    requires first + rest == core + CRLF && |first| >= |core|
    ensures first == core + y && rest in ["", "\n", CRLF]
  {
    y := first[|core|..];
    assert first == (core + CRLF)[..|first|] && rest == (core + CRLF)[|first|..];
    assert y == CRLF[..|y|] && rest == CRLF[|y|..];
    assert CRLF[0..] == CRLF && CRLF[1..] == "\n" && CRLF[2..] == "";
  }

  lemma SameFirst(p: Parser, q: Parser, chunks: seq<string>, x: string)
    requires p.state <= 4 && q.state <= 4 && chunks != []
    requires Feed(p, chunks[0], AtEntry) == Feed(q, x, AtEntry)
    ensures FeedAll(p, chunks, AtEntry) == FeedAll(q, [x] + chunks[1..], AtEntry)
  {
  }

  lemma FirstChunk(items: seq<Item>, boundary: string, chunks: seq<string>, x: string)
    requires items != [] && Concat(chunks) == Serialize(items, boundary)
    requires chunks != [] && |chunks[0]| >= |DashBoundaryCrlf(boundary)|
    requires x == chunks[0][|DashBoundaryCrlf(boundary)|..]
    ensures chunks[0] == DashBoundaryCrlf(boundary) + x
    ensures Concat([x] + chunks[1..]) == Tail(items, boundary, DASH + CRLF)
  {
    SerializeIsTail(items, boundary);
    FirstCut(chunks[0], Concat(chunks[1..]), DashBoundaryCrlf(boundary), Tail(items, boundary, DASH + CRLF), x);
    assert ([x] + chunks[1..])[1..] == chunks[1..];
  }

  lemma FirstCut(c: string, rest: string, d: string, tail: string, x: string)
    requires c + rest == d + tail && |c| >= |d| && x == c[|d|..]
    ensures c == d + x && x + rest == tail
  {
    assert c[..|d|] == (c + rest)[..|d|] == d;
    assert x + rest == (c + rest)[|d|..];
  }

  /** Why the first chunk matters: bytes that do not hold the whole opening
      delimiter line are dropped, as if they had never come. */
  lemma OpeningLost(boundary: string, limit: nat, chunk: string, chunks: seq<string>)
    requires Find(chunk, DashBoundaryCrlf(boundary)) == |chunk|
    ensures FeedAll(Start(boundary, limit), [chunk] + chunks, AtEntry)
         == FeedAll(Start(boundary, limit), chunks, AtEntry)
  {
    var p := Start(boundary, limit);
    assert p.view + chunk == chunk;
    assert chunk[|chunk|..] == "";
    assert Feed(p, chunk, AtEntry) == Ok(p);
    assert ([chunk] + chunks)[1..] == chunks;
  }

  /** Why there must be an item: without one there is no opening delimiter line, and
      the parser does not become valid, however the text is cut. */
  lemma NoItems(boundary: string, limit: nat, chunks: seq<string>)
    requires BoundaryOk(boundary) && Concat(chunks) == Serialize([], boundary)
    ensures var r := FeedAll(Start(boundary, limit), chunks, AtEntry);
      r.Ok? && !r.p.valid && r.p.items == []
  {
    var w := Serialize([], boundary);
    assert w[0..] == w;
    NothingFound(Start(boundary, limit), w, 0, chunks);
  }

  lemma {:induction false} NothingFound(p: Parser, w: string, m: nat, chunks: seq<string>)
    requires BoundaryOk(p.boundary) && w == Serialize([], p.boundary) && p.state == 0 && p.view == ""
    requires m <= |w| && w[m..] == Concat(chunks)
    ensures FeedAll(p, chunks, AtEntry) in [Ok(p), Ok(p.(state := 1))]
    decreases |chunks|
  {
    if chunks != [] {
      var c, rest := chunks[0], Concat(chunks[1..]);
      var n := Find(c, DashBoundaryCrlf(p.boundary));
      assert p.view + c == c;
      assert w[m..][..|c|] == c && w[m..][|c|..] == rest && w[m + |c|..] == rest;
      if n < |c| {
        FoundLast(p.boundary, w, m, c, n);
        assert Initial(p.(view := c)) == Again(p.(state := 1));
        OpensAtEnd(p.(view := c), p.(state := 1));
        EmptyChunks(p.(state := 1), chunks[1..]);
      } else {
        assert c[|c|..] == "";
        NothingFound(p, w, m + |c|, chunks[1..]);
      }
    }
  }

  lemma OpensAtEnd(p: Parser, q: Parser)
    requires p.state == 0 && p.view != "" && Initial(p) == Again(q) && q.view == ""
    ensures Drive(p, AtEntry) == Ok(q)
  {
    DriveUnfold(p, AtEntry);
  }

  lemma FoundLast(boundary: string, w: string, m: nat, c: string, n: nat)
    requires BoundaryOk(boundary) && w == Serialize([], boundary) && m + |c| <= |w| && w[m..m + |c|] == c
    requires n < |c| && At(c, DashBoundaryCrlf(boundary), n)
    ensures m + |c| == |w| && c[n..][|DashBoundaryCrlf(boundary)|..] == ""
  {
    var d := DashBoundaryCrlf(boundary);
    SliceOfSlice(w, m, m + |c|, n, n + |d|);
    OnlyDashes(boundary, m + n);
  }

  lemma {:induction false} EmptyChunks(p: Parser, chunks: seq<string>)
    requires p.state <= 4 && p.view == "" && Concat(chunks) == ""
    ensures FeedAll(p, chunks, AtEntry) == Ok(p)
    decreases |chunks|
  {
    if chunks != [] {
      assert chunks[0] == "" && Concat(chunks[1..]) == "";
      assert p.(view := p.view + "") == p;
      EmptyChunks(p, chunks[1..]);
    }
  }

  /** A boundary of dashes only: the closing line can look like an opening one. */
  lemma OnlyDashes(boundary: string, pos: nat)
    requires BoundaryOk(boundary)
    requires At(Serialize([], boundary), DashBoundaryCrlf(boundary), pos)
    ensures var body, d := Serialize([], boundary), DashBoundaryCrlf(boundary);
      |body[pos..]| == |d| && body[pos..][|d|..] == ""
  {
    var body, d := Serialize([], boundary), DashBoundaryCrlf(boundary);
    // the delimiter line has its CR two places before its end, and so has the body
    assert body[pos + |boundary| + 2] == body[pos..pos + |d|][|boundary| + 2] == d[|boundary| + 2] == '\r';
    OnlyReturn(boundary, pos + |boundary| + 2);
  }

  lemma OnlyReturn(boundary: string, k: nat)
    requires BoundaryOk(boundary) && k < |Serialize([], boundary)| && Serialize([], boundary)[k] == '\r'
    ensures k == |boundary| + 4
  {
  }
}
