/** MultipartFormDataParser of httplib (Httplib/httplib.h): the parser object with
    its buffer, which is compacted and searched in place. */
module MultipartParser {
  import opened Prelude
  import opened HttpText
  import opened Multipart
  import opened TextLoops

  class MultipartFormDataParser {
    const boundary: string
    const limit: nat
    var state: nat
    var isValid: bool
    var file: FileInfo
    var buf: string
    var spos: nat
    var epos: nat
    var items: seq<Item>  // what the callbacks were told

    ghost predicate Valid()
      reads this
    {
      spos <= epos <= |buf| && state <= 4
    }

    ghost function View(): string
      reads this
      requires Valid()
    {
      buf[spos..epos]
    }

    ghost function Abs(): Parser
      reads this
      requires Valid()
    {
      Parser(boundary, limit, state, View(), isValid, file, items)
    }

    constructor (boundary: string, limit: nat)
      ensures Valid() && Abs() == Start(boundary, limit)
    {
      this.boundary, this.limit := boundary, limit;
      state, isValid, file, items := 0, false, NO_FILE, [];
      buf, spos, epos := "", 0, 0;
    }

    /** The first half of buf_append: moves what is buffered to the front. */
    method BufCompact()
      requires Valid()
      modifies this`buf, this`spos, this`epos
      ensures Valid() && spos == 0 && epos == old(epos - spos) && View() == old(View())
    {
      var remaining := epos - spos;
      if remaining > 0 && spos > 0 {
        for i := 0 to remaining
          invariant spos == old(spos) && epos == old(epos) && |buf| == |old(buf)|
          invariant forall k :: 0 <= k < i ==> buf[k] == old(buf)[spos + k]
          invariant forall k :: i <= k < |buf| ==> buf[k] == old(buf)[k]
        {
          buf := buf[i := buf[spos + i]];
        }
      }
      spos, epos := 0, remaining;
      assert View() == old(View());
    }

    /** buf_append: moves the rest to the front, then copies the data behind it. */
    method BufAppend(data: string)
      requires Valid()
      modifies this`buf, this`spos, this`epos
      ensures Valid() && View() == old(View()) + data
    {
      BufCompact();
      ghost var rest := View();
      if epos + |data| > |buf| {
        buf := buf + seq(epos + |data| - |buf|, _ => '\0');
      }
      for i := 0 to |data|
        invariant spos == 0 && epos == |rest| && |buf| >= epos + |data|
        invariant forall k :: 0 <= k < |rest| ==> buf[k] == rest[k]
        invariant forall k :: 0 <= k < i ==> buf[epos + k] == data[k]
      {
        buf := buf[epos + i := data[i]];
      }
      epos := epos + |data|;
      assert View() == rest + data;
    }

    /** buf_find: the first position of s, or the number of buffered bytes. */
    method BufFind(s: string) returns (r: nat)
      requires Valid() && |s| > 0
      ensures r == Find(View(), s)
    {
      var off := spos;
      while off < epos
        invariant spos <= off <= epos
        invariant forall i :: 0 <= i < off - spos ==> !At(View(), s, i)
      {
        var pos := off;
        while pos < epos && buf[pos] != s[0]
          invariant off <= pos <= epos
          invariant forall i :: 0 <= i < pos - spos ==> !At(View(), s, i)
        {
          assert View()[pos - spos] == buf[pos];
          AtFirst(View(), s, pos - spos);
          pos := pos + 1;
        }
        if pos == epos || |s| > epos - pos {
          NotBehind(View(), s, pos - spos);
          return epos - spos;
        }
        SliceOfSlice(buf, spos, epos, pos - spos, pos - spos + |s|);
        if buf[pos..pos + |s|] == s {
          FindIs(View(), s, pos - spos);
          return pos - spos;
        }
        off := pos + 1;
      }
      NotBehind(View(), s, off - spos);
      return epos - spos;
    }

    method BufErase(n: nat)
      requires Valid() && n <= epos - spos
      modifies this`spos
      ensures Valid() && View() == old(View())[n..]
    {
      spos := spos + n;
    }

    predicate BufStartWith(s: string)
      reads this
      requires Valid()
      ensures BufStartWith(s) == (s <= View())
    {
      epos - spos >= |s| && buf[spos..spos + |s|] == s
    }

    /** The result of a pass: none to go on, or what parse returns. */
    ghost predicate Follows(o: Outcome, stop: Option<bool>)
      reads this
      requires Valid()
    {
      match o
      case Again(p) => stop.None? && Abs() == p
      case Stop(Ok(p)) => stop == Some(true) && Abs() == p
      case Stop(Fail) => stop == Some(false)
    }

    method InitialBoundary() returns (stop: Option<bool>)
      requires Valid() && state == 0
      modifies this
      ensures Valid() && Follows(Step(old(Abs()), AtEntry), stop)
    {
      var delimiter := DashBoundaryCrlf(boundary);
      var pos := BufFind(delimiter);
      BufErase(pos);
      if |delimiter| > epos - spos { return Some(true); }
      assert BufStartWith(delimiter);
      BufErase(|delimiter|);
      state := 1;
      return None;
    }

    /** One complete header line, of pos characters. */
    method HeaderLine(pos: nat) returns (ok: bool)
      requires Valid() && pos == Find(View(), CRLF) && 0 < pos < |View()|
      modifies this`spos, this`file
      ensures Valid()
      ensures ok <==> ParseLine(old(View())[..pos], old(file)).Some?
      ensures ok ==> file == ParseLine(old(View())[..pos], old(file)).value && View() == old(View())[pos + |CRLF|..]
    {
      assert View()[..pos] == buf[spos..spos + pos];
      var header := buf[spos..spos + pos];
      ok := ParseHeader(header);
      if !ok { return; }
      var isType := StartWithCaseIgnore(header, CONTENT_TYPE);
      if isType {
        var contentType := TrimCopy(header[|CONTENT_TYPE|..]);
        file := file.(contentType := contentType);
      } else {
        var m := Disposition(header);
        if m.Some? {
          ok := DispositionLine(m.value);
          if !ok { return; }
        }
      }
      BufErase(pos + |CRLF|);
    }

    /** What the parameters of a Content-Disposition line do. */
    method DispositionLine(text: string) returns (ok: bool)
      modifies this`file
      ensures ok <==> ApplyParams(Params(Split(text, ';'), {}), old(file)).Some?
      ensures ok ==> file == ApplyParams(Params(Split(text, ';'), {}), old(file)).value
    {
      var params := ParseDispositionParams(text);
      var it := Lookup(params, "name");
      if it.None? { return false; }
      file := file.(name := it.value);
      it := Lookup(params, "filename");
      if it.Some? { file := file.(filename := it.value); }
      it := Lookup(params, "filename*");
      if it.Some? {
        var utf8 := StartWithCaseIgnore(it.value, RFC5987);
        if !utf8 || |it.value| == |RFC5987| { return false; }
        var filename := DecodeUrlLoop(it.value[|RFC5987|..], false);
        file := file.(filename := filename);
      }
      return true;
    }

    /** The loop over the complete header lines. */
    method HeaderLoop() returns (ok: bool, begins: bool)
      requires Valid()
      modifies this`spos, this`file
      ensures Valid()
      ensures var r := ParseHeaders(old(View()), old(file), AtEntry);
        && (ok <==> !r.Refused?)
        && (r.More? ==> !begins && (View(), file) == (r.view, r.file))
        && (r.Begins? ==> begins && (View(), file) == (r.view, r.file))
    {
      ghost var all := ParseHeaders(View(), file, AtEntry);
      var pos := BufFind(CRLF);
      while pos < epos - spos
        invariant Valid() && pos == Find(View(), CRLF)
        invariant ParseHeaders(View(), file, AtEntry) == all
        decreases epos - spos
      {
        HeadersUnfold(View(), file, AtEntry);
        if pos == 0 {
          BufErase(|CRLF|);
          return true, true;
        }
        ok := HeaderLine(pos);
        if !ok { return false, false; }
        pos := BufFind(CRLF);
      }
      HeadersUnfold(View(), file, AtEntry);
      return true, false;
    }

    method HeaderLines() returns (stop: Option<bool>)
      requires Valid() && state == 2
      modifies this
      ensures Valid() && Follows(Step(old(Abs()), AtEntry), stop)
    {
      var pos := BufFind(CRLF);
      if pos > HEADER_MAX { return Some(false); }
      var ok, begins := HeaderLoop();
      if !ok || (begins && |items| >= limit) {
        isValid := false;
        return Some(false);
      }
      if !begins { return Some(true); }
      items := items + [Item(file, "")];
      state := 3;
      return None;
    }

    /** Hands the first n buffered bytes to the content callback and erases m. */
    method Deliver(n: nat, m: nat)
      requires Valid() && n <= m <= epos - spos
      modifies this`items, this`spos
      ensures Valid()
      ensures Abs() == old(Abs().(view := View()[m..], items := Append(items, View()[..n])))
    {
      assert View()[..n] == buf[spos..spos + n];
      items := Append(items, buf[spos..spos + n]);
      BufErase(m);
    }

    method BodyBytes() returns (stop: Option<bool>)
      requires Valid() && state == 3
      modifies this
      ensures Valid() && Follows(Step(old(Abs()), AtEntry), stop)
    {
      var delimiter := CrlfDashBoundary(boundary);
      if |delimiter| > epos - spos { return Some(true); }
      var pos := BufFind(delimiter);
      if pos < epos - spos {
        Deliver(pos, pos + |delimiter|);
        state := 4;
        return None;
      }
      var len := epos - spos - |delimiter|;
      if len > 0 {
        Deliver(len, len);
      }
      return Some(true);
    }

    method BoundaryEnd() returns (stop: Option<bool>)
      requires Valid() && state == 4
      modifies this
      ensures Valid() && Follows(Step(old(Abs()), AtEntry), stop)
    {
      if |CRLF| > epos - spos { return Some(true); }
      if BufStartWith(CRLF) {
        BufErase(|CRLF|);
        state := 1;
        return None;
      }
      if |DASH| > epos - spos { return Some(true); }
      if BufStartWith(DASH) {
        BufErase(|DASH|);
        isValid := true;
        BufErase(epos - spos);
        return None;
      }
      return Some(true);
    }

    /** One pass through the switch. */
    method Pass() returns (stop: Option<bool>)
      requires Valid() && spos < epos
      modifies this
      ensures Valid() && Follows(Step(old(Abs()), AtEntry), stop)
    {
      match state {
        case 0 => stop := InitialBoundary();
        case 1 => stop, file, state := None, NO_FILE, 2;
        case 2 => stop := HeaderLines();
        case 3 => stop := BodyBytes();
        case _ => stop := BoundaryEnd();
      }
    }

    /** parse: refuses exactly when Feed fails, and otherwise leaves the parser as
        Feed says. */
    method Parse(data: string) returns (ok: bool)
      requires Valid()
      modifies this
      ensures Valid()
      ensures ok <==> Feed(old(Abs()), data, AtEntry).Ok?
      ensures ok ==> Abs() == Feed(old(Abs()), data, AtEntry).p
    {
      BufAppend(data);
      ghost var result := Drive(Abs(), AtEntry);
      while epos - spos > 0
        invariant Valid() && Drive(Abs(), AtEntry) == result
        decreases epos - spos, if state == 1 then 1 else 0
      {
        assert |Abs().view| == epos - spos;
        DriveUnfold(Abs(), AtEntry);
        var stop := Pass();
        if stop.Some? { return stop.value; }
        assert |Abs().view| == epos - spos;
      }
      return true;
    }
  }

  /** Nothing before position n, and no room from there on. */
  lemma NotBehind(v: string, s: string, n: nat)
    requires |s| > 0 && n <= |v| < n + |s|
    requires forall i :: 0 <= i < n ==> !At(v, s, i)
    ensures Find(v, s) == |v|
  {
  }

  /** parse_disposition_params */
  method ParseDispositionParams(s: string) returns (params: seq<(string, string)>)
    ensures params == Params(Split(s, ';'), {})
  {
    var pieces := SplitAll(s, ';');
    params := [];
    var cache: set<string> := {};
    for i := 0 to |pieces|
      invariant params + Params(pieces[i..], cache) == Params(pieces, {})
    {
      var kv := pieces[i];
      assert pieces[i..][0] == kv && pieces[i..][1..] == pieces[i + 1..];
      if kv !in cache {
        cache := cache + {kv};
        AppendAssoc(params, ParamOf(kv), Params(pieces[i + 1..], cache));
        var param := KeyAndValue(kv);
        params := params + param;
      }
    }
  }

  /** The parameter of one piece, if it has a key: the pieces between the equals signs
      are the key first, and then the value, again and again. */
  function ParamOf(kv: string): seq<(string, string)> {
    var tokens := Split(kv, '=');
    if tokens == [] then [] else
    [(TrimDoubleQuotes(tokens[0]), TrimDoubleQuotes(if |tokens| > 1 then tokens[|tokens| - 1] else ""))]
  }

  method KeyAndValue(kv: string) returns (param: seq<(string, string)>)
    ensures param == ParamOf(kv)
  {
    var tokens := SplitAll(kv, '=');
    NoEmptyPieces(kv, '=');
    var key, val := "", "";
    for i := 0 to |tokens|
      invariant key == if i == 0 then "" else tokens[0]
      invariant val == if i <= 1 then "" else tokens[i - 1]
    {
      if key == "" { key := tokens[i]; } else { val := tokens[i]; }
    }
    return if key != "" then [(TrimDoubleQuotes(key), TrimDoubleQuotes(val))] else [];
  }

  lemma {:induction false} NoEmptyPieces(s: string, d: char)
    ensures forall i :: 0 <= i < |Split(s, d)| ==> Split(s, d)[i] != ""
    decreases |s|
  {
    var i := IndexOf(s, d);
    if i < |s| {
      NoEmptyPieces(s[i + 1..], d);
    }
  }
}
