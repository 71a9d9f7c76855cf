/** What the multipart parser of httplib makes of header lines that its own serializer
    would not write, and of text around the items (Httplib/httplib.h; RFC 7578,
    RFC 8187). */
module MultipartHeaders {
  import opened Prelude
  import opened HttpText
  import opened TextLoops
  import opened TextLaws
  import opened Multipart
  import opened MultipartRoundTrip

  // ----- the names of header fields

  function Field(name: string, value: string): string { name + [':'] + value }

  lemma NoColon(name: string, key: string)
    requires EitherCase(name, key) && ':' !in key
    ensures ':' !in name
  {
    forall i | 0 <= i < |name| ensures name[i] != ':' {
      assert SameLetter(name[i], key[i]);
    }
  }

  lemma FirstColon(name: string, value: string, key: string)
    requires ':' !in name && ':' !in key
    ensures StartsWithIgnoringCase(Field(name, value), key + [':']) <==> EitherCase(name, key)
  {
    StartsMeans(Field(name, value), key + [':']);
    FirstParts(name, value, key, Field(name, value), key + [':']);
  }

  lemma FirstParts(name: string, value: string, key: string, line: string, prefix: string)
    requires ':' !in name && ':' !in key && line == Field(name, value) && prefix == key + [':']
    ensures |line| >= |prefix| && EitherCase(line[..|prefix|], prefix) <==> EitherCase(name, key)
  {
    if EitherCase(name, key) {
      assert line[..|prefix|] == name + [':'];
    }
    if |line| >= |prefix| && EitherCase(line[..|prefix|], prefix) {
      ColonsMeet(name, key, line[..|prefix|], prefix, line);
      forall i | 0 <= i < |key| ensures SameLetter(name[i], key[i]) {
        assert line[..|prefix|][i] == name[i] && prefix[i] == key[i];
      }
    }
  }

  lemma ColonsMeet(name: string, key: string, front: string, prefix: string, line: string)
    requires ':' !in name && ':' !in key && name + [':'] <= line && prefix == key + [':']
    requires |line| >= |prefix| && front == line[..|prefix|] && EitherCase(front, prefix)
    ensures |name| == |key|
  {
    var n := if |name| < |key| then |name| else |key|;
    assert front[n] == line[n] && SameLetter(front[n], prefix[n]);
  }

  /** Content-Type, in whatever case, sets the type to the value without the blanks
      around it. */
  lemma TypeField(name: string, value: string, file: FileInfo)
    requires EitherCase(name, "Content-Type") && IsHeader(Field(name, value))
    ensures ParseLine(Field(name, value), file) == Some(file.(contentType := Trim(value)))
  {
    var key := "Content-Type";
    assert CONTENT_TYPE == key + [':'];
    NoColon(name, key);
    FirstColon(name, value, key);
    BehindColon(name, value, CONTENT_TYPE);
    TypeSets(Field(name, value), file);
  }

  lemma BehindColon(name: string, value: string, prefix: string)
    requires |prefix| == |name| + 1
    ensures |Field(name, value)| >= |prefix| && Field(name, value)[|prefix|..] == value
  {
  }

  /** A name that is neither leaves what is known of the item alone. */
  lemma OtherField(name: string, value: string, file: FileInfo)
    requires ':' !in name && !EitherCase(name, "Content-Type") && !EitherCase(name, "Content-Disposition")
    requires IsHeader(Field(name, value))
    ensures ParseLine(Field(name, value), file) == Some(file)
  {
    assert CONTENT_TYPE == "Content-Type" + [':'] && CONTENT_DISPOSITION == "Content-Disposition" + [':'];
    FirstColon(name, value, "Content-Type");
    FirstColon(name, value, "Content-Disposition");
  }

  /** Behind Content-Disposition and form-data, in whatever case and with white space in
      front of and behind form-data or not, the parameters are what is left. */
  lemma FormDataField(name: string, w: string, form: string, v: string, text: string, file: FileInfo)
    requires EitherCase(name, "Content-Disposition") && White(w) && EitherCase(form, "form-data;") && White(v)
    requires Visible(text) && IsHeader(Field(name, w + (form + (v + text))))
    ensures ParseLine(Field(name, w + (form + (v + text))), file) == ApplyParams(Params(Split(text, ';'), {}), file)
  {
    var value := w + (form + (v + text));
    DispositionBegins(name, value);
    FormVisible(form, v + text);
    SkipWhite(w, form + (v + text));
    StartsMeans(form + (v + text), FORM_DATA);
    assert (form + (v + text))[..|FORM_DATA|] == form && (form + (v + text))[|FORM_DATA|..] == v + text;
    SkipWhite(v, text);
    DispositionLineIs(Field(name, value), text, file);
  }

  lemma DispositionLineIs(line: string, text: string, file: FileInfo)
    requires IsHeader(line) && !StartsWithIgnoringCase(line, CONTENT_TYPE) && Disposition(line) == Some(text)
    ensures ParseLine(line, file) == ApplyParams(Params(Split(text, ';'), {}), file)
  {
  }

  lemma DispositionBegins(name: string, value: string)
    requires EitherCase(name, "Content-Disposition")
    ensures var line := Field(name, value);
      && StartsWithIgnoringCase(line, CONTENT_DISPOSITION) && line[|CONTENT_DISPOSITION|..] == value
      && !StartsWithIgnoringCase(line, CONTENT_TYPE)
  {
    var key := "Content-Disposition";
    assert CONTENT_DISPOSITION == key + [':'] && CONTENT_TYPE == "Content-Type" + [':'];
    NoColon(name, key);
    FirstColon(name, value, key);
    FirstColon(name, value, "Content-Type");
    BehindColon(name, value, CONTENT_DISPOSITION);
  }

  lemma FormVisible(form: string, more: string)
    requires EitherCase(form, "form-data;")
    ensures Visible(form + more) && |form| == |FORM_DATA|
  {
    assert SameLetter(form[0], "form-data;"[0]);
  }

  /** Another disposition than form-data is passed over. */
  lemma OtherDisposition(name: string, w: string, value: string, file: FileInfo)
    requires EitherCase(name, "Content-Disposition") && White(w) && Visible(value)
    requires !(|value| >= |FORM_DATA| && EitherCase(value[..|FORM_DATA|], FORM_DATA))
    requires IsHeader(Field(name, w + value))
    ensures ParseLine(Field(name, w + value), file) == Some(file)
  {
    DispositionBegins(name, w + value);
    SkipWhite(w, value);
    StartsMeans(value, FORM_DATA);
  }

  /** The serializer's parameters are read whatever the case of the words around them. */
  lemma NamesInAnyCase(info: FileInfo, name: string, form: string, file: FileInfo)
    requires EitherCase(name, "Content-Disposition") && EitherCase(form, "form-data;")
    requires NamesOk(info) && ValueOk(form + ([' '] + ParameterText(info)))
    ensures ParseLine(name + [':', ' '] + form + [' '] + ParameterText(info), file) ==
      Some(file.(name := info.name, filename := if info.filename == "" then file.filename else info.filename))
  {
    var text := ParameterText(info);
    var value := form + ([' '] + text);
    assert name + [':', ' '] + form + [' '] + text == Field(name, [' '] + value);
    assert text[0] == 'n' && text[|text| - 1] == '"';
    NoColon(name, "Content-Disposition");
    HeaderMeans(name, [' '] + value);
    FormVisible(form, [' '] + text);
    assert value[|value| - 1] == '"';
    TrimMeans([' '], value, "");
    assert [' '] + value + "" == [' '] + value;
    NotLocation(name);
    FormDataField(name, [' '], form, [' '], text, file);
    NameParams(info);
    ApplyNames(info, file);
  }

  lemma NotLocation(name: string)
    requires EitherCase(name, "Content-Disposition")
    ensures name != "" && !EitherCase(name, "Location")
  {
  }

  // ----- the parameters

  /** One piece: key and value are what is in front of the first and behind the last '=',
      without blanks and then without quotes; what is between does not matter. */
  lemma PieceMeans(key: string, between: string, value: string)
    requires '=' !in key && '=' !in value && Trim(key) != "" && Trim(value) != ""
    ensures var k, v := TrimDoubleQuotes(Trim(key)), TrimDoubleQuotes(Trim(value));
      && Params([key + ['='] + value], {}) == [(k, v)]
      && Params([key + ['='] + between + ['='] + value], {}) == [(k, v)]
  {
    SplitCons(key, '=', value);
    SplitOne(value, '=');
    OnePiece(key + ['='] + value);
    SplitSnoc(key + ['='] + between, '=', value);
    SplitCons(key, '=', between);
    OnePiece(key + ['='] + between + ['='] + value);
  }

  /** A piece without a value. */
  lemma PieceWithoutValue(key: string)
    requires '=' !in key && Trim(key) != ""
    ensures Params([key], {}) == [(TrimDoubleQuotes(Trim(key)), "")]
    ensures Params([key + ['=']], {}) == [(TrimDoubleQuotes(Trim(key)), "")]
  {
    SplitOne(key, '=');
    OnePiece(key);
    SplitCons(key, '=', "");
    SplitOne("", '=');
    assert key + ['='] + "" == key + ['='];
    OnePiece(key + ['=']);
  }

  function ParamOf(tokens: seq<string>): seq<(string, string)> {
    if tokens == [] then [] else
    [(TrimDoubleQuotes(tokens[0]), TrimDoubleQuotes(if |tokens| > 1 then tokens[|tokens| - 1] else ""))]
  }

  lemma OnePiece(piece: string)
    ensures Params([piece], {}) == ParamOf(Split(piece, '='))
  {
    assert [piece][1..] == [];
  }

  /** Quotes go only in pairs. */
  lemma QuotesMean(s: string)
    ensures TrimDoubleQuotes(['"'] + s + ['"']) == s
    ensures |s| < 2 || s[0] != '"' || s[|s| - 1] != '"' ==> TrimDoubleQuotes(s) == s
  {
  }

  /** Each further piece adds what it means, unless it has been there before. */
  lemma {:induction false} MorePieces(pieces: seq<string>, piece: string, cache: set<string>)
    ensures Params(pieces + [piece], cache) ==
      Params(pieces, cache) + if piece in pieces || piece in cache then [] else Params([piece], {})
    decreases |pieces|
  {
    if pieces == [] {
      assert pieces + [piece] == [piece];
      LastPiece(piece, cache);
    } else {
      var first, rest := pieces[0], pieces[1..];
      assert pieces == [first] + rest && pieces + [piece] == [first] + (rest + [piece]);
      FirstPiece(first, rest, cache);
      FirstPiece(first, rest + [piece], cache);
      MorePieces(rest, piece, if first in cache then cache else cache + {first});
      AppendAssoc(ParamOf(Split(first, '=')), Params(rest, cache + {first}), Params([piece], {}));
    }
  }

  lemma LastPiece(piece: string, cache: set<string>)
    ensures Params([piece], cache) == if piece in cache then [] else Params([piece], {})
  {
    assert [piece][1..] == [];
  }

  lemma FirstPiece(first: string, rest: seq<string>, cache: set<string>)
    ensures Params([first] + rest, cache) ==
      if first in cache then Params(rest, cache) else ParamOf(Split(first, '=')) + Params(rest, cache + {first})
  {
    assert ([first] + rest)[1..] == rest;
  }

  /** What is found for a key: the value of its first occurrence. */
  lemma {:induction false} LookupMeans(params: seq<(string, string)>, key: string)
    ensures Lookup(params, key).None? <==> forall i :: 0 <= i < |params| ==> params[i].0 != key
    ensures forall i :: (0 <= i < |params| && params[i].0 == key && (forall j :: 0 <= j < i ==> params[j].0 != key)
      ==> Lookup(params, key) == Some(params[i].1))
  {
    if params != [] {
      assert forall j :: 1 <= j < |params| ==> params[j] == params[1..][j - 1];
      LookupMeans(params[1..], key);
    }
  }

  /** Without a name the line is refused, and so is an extended file name that is not
      UTF-8'' and something; one that is goes, decoded, before the plain file name. */
  lemma NamesMean(params: seq<(string, string)>, file: FileInfo)
    ensures Lookup(params, "name").None? ==> ApplyParams(params, file) == None
    ensures Lookup(params, "name").Some? && Lookup(params, "filename*").None? ==>
      ApplyParams(params, file) == Some(FileInfo(Lookup(params, "name").value,
        match Lookup(params, "filename") case Some(v) => v case None => file.filename, file.contentType))
    ensures Lookup(params, "filename*").Some? ==> var v := Lookup(params, "filename*").value;
      if |v| > 7 && EitherCase(v[..7], "UTF-8''") && Lookup(params, "name").Some?
      then ApplyParams(params, file) ==
        Some(FileInfo(Lookup(params, "name").value, DecodeUrl(v[7..], false), file.contentType))
      else ApplyParams(params, file) == None
  {
    if Lookup(params, "filename*").Some? {
      StartsMeans(Lookup(params, "filename*").value, RFC5987);
    }
  }

  // ----- the limit on items

  /** However the text is cut and whatever it is, no more items are reported than the
      limit allows. */
  lemma {:induction false} WithinLimit(p: Parser, chunks: seq<string>, check: Check)
    requires p.state <= 4 && |p.items| <= p.limit
    ensures var r := FeedAll(p, chunks, check); r.Ok? ==> |r.p.items| <= p.limit
    decreases |chunks|
  {
    if chunks != [] {
      CallWithinLimit(p.(view := p.view + chunks[0]), check);
      var r := Feed(p, chunks[0], check);
      if r.Ok? {
        WithinLimit(r.p, chunks[1..], check);
      }
    }
  }

  lemma {:induction false} CallWithinLimit(p: Parser, check: Check)
    requires p.state <= 4 && |p.items| <= p.limit
    ensures var r := Drive(p, check); r.Ok? ==> |r.p.items| <= p.limit
    decreases |p.view|, if p.state == 1 then 1 else 0
  {
    if p.view != "" {
      DriveUnfold(p, check);
      StepWithinLimit(p, check);
      if Step(p, check).Again? {
        CallWithinLimit(Step(p, check).p, check);
      }
    }
  }

  lemma StepWithinLimit(p: Parser, check: Check)
    requires p.state <= 4 && |p.items| <= p.limit
    ensures match Step(p, check)
      case Again(q) => |q.items| <= q.limit == p.limit
      case Stop(Ok(q)) => |q.items| <= p.limit
      case Stop(Fail) => true
  {
  }

  // ----- text around the items

  /** Whatever is in front of the opening delimiter line is passed over. */
  lemma PreambleSkipped(p: Parser, preamble: string, text: string, check: Check)
    requires var d := DashBoundaryCrlf(p.boundary);
      p.state == 0 && Find(preamble + (d + text), d) == |preamble|
    ensures var d := DashBoundaryCrlf(p.boundary);
      Drive(p.(view := preamble + (d + text)), check) == Drive(p.(view := d + text), check)
  {
    var d := DashBoundaryCrlf(p.boundary);
    var w := preamble + (d + text);
    assert w[|preamble|..] == d + text && (d + text)[|d|..] == text;
    assert At(d + text, d, 0);
    FindIs(d + text, d, 0);
    assert (d + text)[0..] == d + text;
    InitialFound(p.(view := w), |preamble|, d + text, text);
    InitialFound(p.(view := d + text), 0, d + text, text);
    DriveUnfold(p.(view := w), check);
    DriveUnfold(p.(view := d + text), check);
  }

  lemma InitialFound(p: Parser, n: nat, rest: string, text: string)
    requires n == Find(p.view, DashBoundaryCrlf(p.boundary)) < |p.view|
    requires p.view[n..] == rest && |rest| >= |DashBoundaryCrlf(p.boundary)|
    requires rest[|DashBoundaryCrlf(p.boundary)|..] == text
    ensures Initial(p) == Again(p.(view := text, state := 1))
  {
  }

  /** A delimiter that is followed neither by a line break nor by two dashes stops the
      parser for good: it keeps what comes and reports nothing more. */
  lemma {:induction false} StopsBehindDelimiter(p: Parser, chunks: seq<string>, check: Check)
    requires p.state == 4 && |p.view| >= 2 && p.view[..2] != CRLF && p.view[..2] != DASH
    ensures FeedAll(p, chunks, check) == Ok(p.(view := p.view + Concat(chunks)))
    decreases |chunks|
  {
    if chunks == [] {
      assert p.view + "" == p.view;
    } else {
      var q := p.(view := p.view + chunks[0]);
      assert q.view[..2] == p.view[..2];
      DriveUnfold(q, check);
      StopsBehindDelimiter(q, chunks[1..], check);
      AppendAssoc(p.view, chunks[0], Concat(chunks[1..]));
    }
  }
}
