/** Byte ranges of httplib (Httplib/httplib.h; RFC 9110 sections 14.2 and 14.6): the
    check that accepts or refuses the ranges of a request, and the multipart body
    that carries the ranges that were accepted. */
module Ranges {
  import opened Prelude
  import opened Numbers
  import opened HttpText

  const RANGE_MAX_COUNT: nat := 1024

  /** First and last position; -1 where the request gives none. */
  datatype Range = Range(first: int, last: int)

  /** What the check makes of a range for content of length n. */
  function Normal(r: Range, n: nat): Range {
    var r1 := if r.first == -1 && r.last == -1 then Range(0, n) else r;
    var r2 := if r1.first == -1 then Range(n - r1.last, n - 1) else r1;
    if r2.last == -1 then r2.(last := n - 1) else r2
  }

  /** The positions that a range of the request stands for in content of length n, if it
      lies within it: from a first position on, with the end left open; the last so many;
      or from one position through another. */
  function Resolved(r: Range, n: nat): Option<Range> {
    if 0 <= r.first < n && r.last == -1 then Some(Range(r.first, n - 1))
    else if r.first == -1 && 1 <= r.last <= n then Some(Range(n - r.last, n - 1))
    else if 0 <= r.first <= r.last < n then Some(r)
    else None
  }

  /** The positions left open are filled in as the range means them, and what does not
      stand for anything comes out of the content. */
  lemma NormalIsResolved(r: Range, n: nat)
    ensures Within(Normal(r, n), n) <==> Resolved(r, n).Some?
    ensures Within(Normal(r, n), n) ==> Resolved(r, n) == Some(Normal(r, n))
  {
  }

  function Normals(rs: seq<Range>, n: nat): (r: seq<Range>)
    ensures |r| == |rs| && forall i :: 0 <= i < |rs| ==> r[i] == Normal(rs[i], n)
  {
    if rs == [] then [] else [Normal(rs[0], n)] + Normals(rs[1..], n)
  }

  /** The range lies within the content. */
  predicate Within(r: Range, n: nat) { 0 <= r.first <= r.last < n }

  /** The largest last position, -1 if there is no range. */
  function MaxLast(rs: seq<Range>): (m: int)
    ensures m >= -1 && forall i :: 0 <= i < |rs| ==> rs[i].last <= m
  {
    if rs == [] then -1 else
    var m := MaxLast(rs[..|rs| - 1]);
    if rs[|rs| - 1].last > m then rs[|rs| - 1].last else m
  }

  /** How many ranges begin at or before the end of an earlier one. */
  function Overlaps(rs: seq<Range>): nat {
    if rs == [] then 0 else
    Overlaps(rs[..|rs| - 1]) + if rs[|rs| - 1].first <= MaxLast(rs[..|rs| - 1]) then 1 else 0
  }

  /** The ranges that begin at or before the end of an earlier one. */
  ghost function Overlapping(rs: seq<Range>): set<nat> {
    set i | 0 <= i < |rs| && exists j :: 0 <= j < i && rs[i].first <= rs[j].last
  }

  lemma {:induction false} MaxLastReached(rs: seq<Range>, first: int)
    requires first >= 0
    ensures first <= MaxLast(rs) <==> exists j :: 0 <= j < |rs| && first <= rs[j].last
  {
    if rs != [] {
      var init, last := rs[..|rs| - 1], |rs| - 1;
      MaxLastReached(init, first);
      assert forall j :: 0 <= j < last ==> init[j] == rs[j];
      if first <= rs[last].last {
        assert exists j :: 0 <= j < |rs| && first <= rs[j].last;
      } else if first <= MaxLast(init) {
        var j :| 0 <= j < last && first <= init[j].last;
        assert first <= rs[j].last;
      }
    }
  }

  /** Overlaps counts them. */
  lemma {:induction false} OverlapsMeans(rs: seq<Range>)
    requires forall i :: 0 <= i < |rs| ==> rs[i].first >= 0
    ensures Overlaps(rs) == |Overlapping(rs)|
  {
    if rs != [] {
      var init, last := rs[..|rs| - 1], |rs| - 1;
      assert forall j :: 0 <= j < last ==> init[j] == rs[j];
      OverlapsMeans(init);
      MaxLastReached(init, rs[last].first);
      OneMoreOverlaps(rs, init, last);
    }
  }

  lemma OneMoreOverlaps(rs: seq<Range>, init: seq<Range>, last: nat)
    requires last + 1 == |rs| && init == rs[..last]
    ensures |Overlapping(rs)| == |Overlapping(init)| +
      if exists j :: 0 <= j < last && rs[last].first <= init[j].last then 1 else 0
  {
    forall i | 0 <= i < last ensures i in Overlapping(rs) <==> i in Overlapping(init) {
    }
    if exists j :: 0 <= j < last && rs[last].first <= init[j].last {
      assert Overlapping(rs) == Overlapping(init) + {last};
    } else {
      assert Overlapping(rs) == Overlapping(init);
    }
  }

  /** RFC 9110 section 14.2: ranges within the content, in ascending order, of which
      no more than two overlap with earlier ones. */
  predicate Acceptable(rs: seq<Range>, n: nat) {
    && (forall i :: 0 <= i < |rs| ==> Within(rs[i], n))
    && (forall i, j :: 0 <= i < j < |rs| ==> rs[i].first < rs[j].first)
    && Overlaps(rs) <= 2
  }

  /** range_error: true for a request to be refused; otherwise the ranges are
      normalised in place.  A request without ranges, and a response that is no
      success, are not looked at. */
  method RangeError(ranges: array<Range>, status: int, n: nat) returns (error: bool)
    modifies ranges
    ensures var looked := ranges.Length > 0 && 200 <= status < 300;
      && (error <==> looked && (ranges.Length > 1024 || !Acceptable(Normals(old(ranges[..]), n), n)))
      && (!error ==> ranges[..] == if looked then Normals(old(ranges[..]), n) else old(ranges[..]))
    ensures ranges.Length > 0 && 200 <= status < 300 && !error ==>
      forall i :: 0 <= i < ranges.Length ==> Resolved(old(ranges[..])[i], n) == Some(ranges[i])
  {
    ghost var was := ranges[..];
    if !(ranges.Length > 0 && 200 <= status < 300) { return false; }
    if ranges.Length > RANGE_MAX_COUNT { return true; }
    error := CheckRanges(ranges, n);
    if !error {
      forall i | 0 <= i < ranges.Length ensures Resolved(was[i], n) == Some(ranges[i]) {
        NormalIsResolved(was[i], n);
        assert ranges[i] == ranges[..][i] == Normal(was[i], n);
      }
    }
  }

  /** What all ranges of a request stand for. */
  function AllResolved(rs: seq<Range>, n: nat): seq<Range>
    requires AllMean(rs, n)
  {
    seq(|rs|, i requires 0 <= i < |rs| => Resolved(rs[i], n).value)
  }

  /** All ranges of the request stand for something. */
  predicate AllMean(rs: seq<Range>, n: nat) { forall i :: 0 <= i < |rs| ==> Resolved(rs[i], n).Some? }

  /** Which requests are acceptable, in terms of what their ranges stand for. */
  lemma AcceptableMeans(rs: seq<Range>, n: nat)
    ensures Acceptable(Normals(rs, n), n) <==> AllMean(rs, n) && var all := AllResolved(rs, n);
      (forall i, j :: 0 <= i < j < |all| ==> all[i].first < all[j].first) && |Overlapping(all)| <= 2
  {
    if AllMean(rs, n) {
      NormalsResolved(rs, n);
      OverlapsMeans(AllResolved(rs, n));
    } else {
      NormalsOutside(rs, n);
    }
  }

  lemma NormalsResolved(rs: seq<Range>, n: nat)
    requires AllMean(rs, n)
    ensures Normals(rs, n) == AllResolved(rs, n) && forall i :: 0 <= i < |rs| ==> Within(AllResolved(rs, n)[i], n)
  {
    var normals, all := Normals(rs, n), AllResolved(rs, n);
    forall i | 0 <= i < |rs| ensures Within(all[i], n) && normals[i] == all[i] {
      NormalIsResolved(rs[i], n);
    }
  }

  lemma NormalsOutside(rs: seq<Range>, n: nat)
    requires !AllMean(rs, n)
    ensures exists i :: 0 <= i < |rs| && !Within(Normals(rs, n)[i], n)
  {
    var i :| 0 <= i < |rs| && !Resolved(rs[i], n).Some?;
    NormalIsResolved(rs[i], n);
    assert !Within(Normals(rs, n)[i], n);
  }

  /** The loop over the ranges. */
  method CheckRanges(ranges: array<Range>, n: nat) returns (error: bool)
    modifies ranges
    ensures error <==> !Acceptable(Normals(old(ranges[..]), n), n)
    ensures !error ==> ranges[..] == Normals(old(ranges[..]), n)
  {
    ghost var normals := Normals(ranges[..], n);
    var prevFirst, prevLast, overlapping := -1, -1, 0;
    var i := 0;
    while i < ranges.Length
      invariant 0 <= i <= ranges.Length && |normals| == ranges.Length
      invariant ranges[..i] == normals[..i]
      invariant forall k :: i <= k < ranges.Length ==> Normal(ranges[k], n) == normals[k]
      invariant Reached(normals, i, n, prevFirst, prevLast, overlapping)
    {
      var r := NormalRange(ranges[i], n);
      ranges[i] := r;
      error, prevFirst, prevLast, overlapping := Judge(r, n, prevFirst, prevLast, overlapping, normals, i);
      if error { return true; }
      i := i + 1;
    }
    assert normals[..i] == normals;
    return false;
  }

  /** The three tests of the loop. */
  method Judge(r: Range, n: nat, prevFirst: int, prevLast: int, overlapping: int, ghost rs: seq<Range>, ghost i: nat)
    returns (error: bool, prevFirst': int, prevLast': int, overlapping': int)
    requires i < |rs| && rs[i] == r && Reached(rs, i, n, prevFirst, prevLast, overlapping)
    ensures error ==> !Acceptable(rs, n)
    ensures !error ==> Reached(rs, i + 1, n, prevFirst', prevLast', overlapping')
  {
    JudgeMore(rs, i, n, prevFirst, prevLast, overlapping);
    prevFirst', prevLast', overlapping' := prevFirst, prevLast, overlapping;
    if !(0 <= r.first <= r.last <= n - 1) { return true, prevFirst, prevLast, overlapping; }
    if r.first <= prevFirst { return true, prevFirst, prevLast, overlapping; }
    if r.first <= prevLast {
      overlapping' := overlapping + 1;
      if overlapping' > 2 { return true, prevFirst, prevLast, overlapping'; }
    }
    prevFirst' := if prevFirst > r.first then prevFirst else r.first;
    prevLast' := if prevLast > r.last then prevLast else r.last;
    error := false;
  }

  /** The loop's variables after i acceptable ranges. */
  ghost predicate Reached(rs: seq<Range>, i: nat, n: nat, prevFirst: int, prevLast: int, overlapping: int) {
    && i <= |rs| && Acceptable(rs[..i], n)
    && prevFirst == (if i == 0 then -1 else rs[i - 1].first) && prevLast == MaxLast(rs[..i])
    && overlapping == Overlaps(rs[..i])
  }

  /** One more range is acceptable exactly when the three tests pass. */
  lemma JudgeMore(rs: seq<Range>, i: nat, n: nat, prevFirst: int, prevLast: int, overlapping: int)
    requires i < |rs| && Reached(rs, i, n, prevFirst, prevLast, overlapping)
    ensures var r := rs[i];
      var overlapping' := overlapping + if r.first <= prevLast then 1 else 0;
      if Within(r, n) && r.first > prevFirst && overlapping' <= 2
      then prevFirst < r.first && Reached(rs, i + 1, n, r.first, if prevLast > r.last then prevLast else r.last, overlapping')
      else !Acceptable(rs, n)
  {
    CountMore(rs, i);
    var r := rs[i];
    var overlapping' := overlapping + if r.first <= prevLast then 1 else 0;
    if Within(r, n) && r.first > prevFirst && overlapping' <= 2 {
      AcceptMore(rs, i, n);
    } else {
      RefuseMore(rs, i, n);
    }
  }

  lemma CountMore(rs: seq<Range>, i: nat)
    requires i < |rs|
    ensures Overlaps(rs[..i + 1]) == Overlaps(rs[..i]) + if rs[i].first <= MaxLast(rs[..i]) then 1 else 0
    ensures MaxLast(rs[..i + 1]) == if rs[i].last > MaxLast(rs[..i]) then rs[i].last else MaxLast(rs[..i])
  {
    assert rs[..i + 1][..i] == rs[..i] && rs[..i + 1][i] == rs[i];
  }

  lemma AcceptMore(rs: seq<Range>, i: nat, n: nat)
    requires i < |rs| && Acceptable(rs[..i], n)
    requires Within(rs[i], n) && (i == 0 || rs[i - 1].first < rs[i].first) && Overlaps(rs[..i + 1]) <= 2
    ensures Acceptable(rs[..i + 1], n)
  {
  }

  lemma RefuseMore(rs: seq<Range>, i: nat, n: nat)
    requires i < |rs|
    requires !Within(rs[i], n) || rs[i].first <= (if i == 0 then -1 else rs[i - 1].first) || Overlaps(rs[..i + 1]) > 2
    ensures !Acceptable(rs, n)
  {
    OverlapsMore(rs, i + 1);
  }

  lemma {:induction false} OverlapsMore(rs: seq<Range>, k: nat)
    requires k <= |rs|
    ensures Overlaps(rs[..k]) <= Overlaps(rs)
    decreases |rs|
  {
    if k == |rs| {
      assert rs[..k] == rs;
    } else {
      var init := rs[..|rs| - 1];
      assert init[..k] == rs[..k];
      OverlapsMore(init, k);
    }
  }

  /** The beginning of the loop: the positions that the request leaves open. */
  method NormalRange(r: Range, n: nat) returns (r': Range)
    ensures r' == Normal(r, n)
  {
    var first, last := r.first, r.last;
    if first == -1 && last == -1 {
      first := 0;
      last := n;
    }
    if first == -1 {
      first := n - last;
      last := n - 1;
    }
    if last == -1 { last := n - 1; }
    r' := Range(first, last);
  }

  // ----- what acceptance means

  function TotalLength(rs: seq<Range>): int {
    if rs == [] then 0 else TotalLength(rs[..|rs| - 1]) + (rs[|rs| - 1].last - rs[|rs| - 1].first + 1)
  }

  lemma {:induction false} LengthBound(rs: seq<Range>, n: nat)
    requires forall i :: 0 <= i < |rs| ==> Within(rs[i], n)
    ensures TotalLength(rs) <= MaxLast(rs) + 1 + Overlaps(rs) * n
    ensures MaxLast(rs) < n || rs == []
  {
    if rs != [] {
      var init, last := rs[..|rs| - 1], rs[|rs| - 1];
      assert forall i :: 0 <= i < |init| ==> init[i] == rs[i];
      LengthBound(init, n);
      assert Within(last, n);
      assert (Overlaps(init) + 1) * n == Overlaps(init) * n + n;
    }
  }

  /** Ranges that are accepted cannot make the response longer than three times the
      content. */
  lemma AtMostThrice(rs: seq<Range>, n: nat)
    requires Acceptable(rs, n)
    ensures 0 <= TotalLength(rs) <= 3 * n
  {
    LengthBound(rs, n);
    NotNegative(rs, n);
    var k := Overlaps(rs);
    assert k == 0 || k == 1 || k == 2;
    assert k * n <= 2 * n;
  }

  lemma {:induction false} NotNegative(rs: seq<Range>, n: nat)
    requires forall i :: 0 <= i < |rs| ==> Within(rs[i], n)
    ensures TotalLength(rs) >= 0
  {
    if rs != [] {
      assert Within(rs[|rs| - 1], n);
      assert forall i :: 0 <= i < |rs| - 1 ==> rs[..|rs| - 1][i] == rs[i];
      NotNegative(rs[..|rs| - 1], n);
    }
  }

  /** A suffix range that asks for more than there is, or for nothing, is refused. */
  lemma SuffixWithin(last: int, n: nat)
    requires last != -1
    ensures Within(Normal(Range(-1, last), n), n) <==> 1 <= last <= n
  {
  }

  // ----- the multipart body

  /** get_range_offset_and_length; the precondition is what the source asserts. */
  function OffsetAndLength(r: Range, n: nat): (nat, nat)
    requires Within(r, n)
  {
    (r.first, r.last - r.first + 1)
  }

  function ContentRange(r: Range, n: nat): string
    requires Within(r, n)
  {
    var (st, length) := OffsetAndLength(r, n);
    "bytes " + ToString(st) + "-" + ToString(st + length - 1) + "/" + ToString(n)
  }

  /** What process_multipart_ranges_data hands to its callbacks. */
  datatype Token = Text(s: string) | Content(offset: nat, length: nat)

  function PartTokens(r: Range, boundary: string, contentType: string, n: nat): seq<Token>
    requires Within(r, n)
  {
    [Text("--"), Text(boundary), Text(CRLF)]
    + (if contentType == "" then [] else [Text("Content-Type: "), Text(contentType), Text(CRLF)])
    + [Text("Content-Range: "), Text(ContentRange(r, n)), Text(CRLF), Text(CRLF),
       Content(OffsetAndLength(r, n).0, OffsetAndLength(r, n).1), Text(CRLF)]
  }

  function Tokens(rs: seq<Range>, boundary: string, contentType: string, n: nat): seq<Token>
    requires forall i :: 0 <= i < |rs| ==> Within(rs[i], n)
  {
    if rs == [] then [Text("--"), Text(boundary), Text("--")]
    else PartTokens(rs[0], boundary, contentType, n) + Tokens(rs[1..], boundary, contentType, n)
  }

  /** process_multipart_ranges_data, the callbacks collecting what they are given. */
  method ProcessMultipartRanges(rs: seq<Range>, boundary: string, contentType: string, n: nat)
    returns (tokens: seq<Token>)
    requires forall i :: 0 <= i < |rs| ==> Within(rs[i], n)
    ensures tokens == Tokens(rs, boundary, contentType, n)
  {
    tokens := [];
    for i := 0 to |rs|
      invariant tokens + Tokens(rs[i..], boundary, contentType, n) == Tokens(rs, boundary, contentType, n)
    {
      assert rs[i..][0] == rs[i] && rs[i..][1..] == rs[i + 1..];
      var part := ProcessPart(rs[i], boundary, contentType, n);
      AppendAssoc(tokens, part, Tokens(rs[i + 1..], boundary, contentType, n));
      tokens := tokens + part;
    }
    assert rs[|rs|..] == [];
    tokens := tokens + [Text("--"), Text(boundary), Text("--")];
  }

  /** The tokens of one range. */
  method ProcessPart(r: Range, boundary: string, contentType: string, n: nat) returns (part: seq<Token>)
    requires Within(r, n)
    ensures part == PartTokens(r, boundary, contentType, n)
  {
    part := [Text("--"), Text(boundary), Text(CRLF)];
    if contentType != "" {
      part := part + [Text("Content-Type: "), Text(contentType), Text(CRLF)];
    }
    var (offset, length) := OffsetAndLength(r, n);
    part := part + [Text("Content-Range: "), Text(ContentRange(r, n)), Text(CRLF), Text(CRLF),
                    Content(offset, length), Text(CRLF)];
  }

  /** make_multipart_ranges_data: the bytes. */
  function Bytes(tokens: seq<Token>, body: string): string {
    if tokens == [] then "" else
    (match tokens[0]
     case Text(s) => s
     case Content(offset, length) => if offset + length <= |body| then body[offset..offset + length] else "")
    + Bytes(tokens[1..], body)
  }

  // ----- what the response is

  /** The field that names the content type, if there is one. */
  function TypeText(contentType: string): string {
    if contentType == "" then "" else "Content-Type: " + contentType + CRLF
  }

  /** One part: its header fields say which positions of how much content follow, and
      these follow. */
  function Part(r: Range, boundary: string, contentType: string, body: string): string
    requires Within(r, |body|)
  {
    "--" + boundary + CRLF
    + TypeText(contentType)
    + ("Content-Range: bytes " + ToString(r.first) + "-" + ToString(r.last) + "/" + ToString(|body|) + CRLF + CRLF)
    + body[r.first..r.last + 1] + CRLF
  }

  /** The parts in order, and the closing delimiter. */
  function Response(rs: seq<Range>, boundary: string, contentType: string, body: string): string
    requires forall i :: 0 <= i < |rs| ==> Within(rs[i], |body|)
  {
    if rs == [] then "--" + boundary + "--"
    else Part(rs[0], boundary, contentType, body) + Response(rs[1..], boundary, contentType, body)
  }

  lemma {:induction false} BytesConcat(a: seq<Token>, b: seq<Token>, body: string)
    ensures Bytes(a + b, body) == Bytes(a, body) + Bytes(b, body)
  {
    if a == [] {
      assert a + b == b;
    } else {
      assert (a + b)[0] == a[0] && (a + b)[1..] == a[1..] + b;
      BytesConcat(a[1..], b, body);
    }
  }

  lemma TextBytes(s: string, rest: seq<Token>, body: string)
    ensures Bytes([Text(s)] + rest, body) == s + Bytes(rest, body)
  {
  }

  lemma {:induction false} ThreeTexts(a: string, b: string, c: string, body: string)
    ensures Bytes([Text(a), Text(b), Text(c)], body) == a + b + c
  {
    assert [Text(a), Text(b), Text(c)] == [Text(a)] + ([Text(b)] + ([Text(c)] + []));
    TextBytes(c, [], body);
    TextBytes(b, [Text(c)] + [], body);
    TextBytes(a, [Text(b)] + ([Text(c)] + []), body);
  }

  lemma RangeText(r: Range, n: nat)
    requires Within(r, n)
    ensures "Content-Range: " + ContentRange(r, n) + CRLF
         == "Content-Range: bytes " + ToString(r.first) + "-" + ToString(r.last) + "/" + ToString(n) + CRLF
  {
    RangeWords("Content-Range: ", "bytes ", ToString(r.first), ToString(r.last), ToString(n));
    assert "Content-Range: bytes " == "Content-Range: " + "bytes ";
  }

  lemma RangeWords(head: string, unit: string, a: string, b: string, c: string)
    ensures head + (unit + a + "-" + b + "/" + c) + CRLF == head + unit + a + "-" + b + "/" + c + CRLF
  {
  }

  lemma BodyBytes(r: Range, body: string)
    requires Within(r, |body|)
    ensures Bytes([Text(CRLF), Content(OffsetAndLength(r, |body|).0, OffsetAndLength(r, |body|).1), Text(CRLF)], body)
         == CRLF + body[r.first..r.last + 1] + CRLF
  {
    var (offset, length) := OffsetAndLength(r, |body|);
    var content := Content(offset, length);
    assert [Text(CRLF), content, Text(CRLF)] == [Text(CRLF)] + ([content] + ([Text(CRLF)] + []));
    TextBytes(CRLF, [], body);
    ContentBytes(offset, length, [Text(CRLF)] + [], body);
    TextBytes(CRLF, [content] + ([Text(CRLF)] + []), body);
    EndOfPart(body[offset..offset + length]);
  }

  lemma ContentBytes(offset: nat, length: nat, rest: seq<Token>, body: string)
    requires offset + length <= |body|
    ensures Bytes([Content(offset, length)] + rest, body) == body[offset..offset + length] + Bytes(rest, body)
  {
  }

  lemma EndOfPart(content: string)
    ensures CRLF + (content + (CRLF + "")) == CRLF + content + CRLF
  {
  }

  /** The tokens that name the content type, if there is one. */
  function TypeTokens(contentType: string): seq<Token> {
    if contentType == "" then [] else [Text("Content-Type: "), Text(contentType), Text(CRLF)]
  }

  lemma TypeBytes(contentType: string, body: string)
    ensures Bytes(TypeTokens(contentType), body) == TypeText(contentType)
  {
    ThreeTexts("Content-Type: ", contentType, CRLF, body);
  }

  lemma PartGroups(r: Range, boundary: string, contentType: string, n: nat)
    requires Within(r, n)
    ensures PartTokens(r, boundary, contentType, n) ==
      ([Text("--"), Text(boundary), Text(CRLF)] + TypeTokens(contentType))
      + ([Text("Content-Range: "), Text(ContentRange(r, n)), Text(CRLF)]
         + [Text(CRLF), Content(OffsetAndLength(r, n).0, OffsetAndLength(r, n).1), Text(CRLF)])
  {
  }

  lemma GroupBytes(a: seq<Token>, b: seq<Token>, c: seq<Token>, d: seq<Token>, body: string)
    ensures Bytes((a + b) + (c + d), body) == (Bytes(a, body) + Bytes(b, body)) + (Bytes(c, body) + Bytes(d, body))
  {
    BytesConcat(a + b, c + d, body);
    BytesConcat(a, b, body);
    BytesConcat(c, d, body);
  }

  lemma PartIs(r: Range, boundary: string, contentType: string, body: string)
    requires Within(r, |body|)
    ensures Bytes(PartTokens(r, boundary, contentType, |body|), body) == Part(r, boundary, contentType, body)
  {
    var n := |body|;
    PartGroups(r, boundary, contentType, n);
    GroupBytes([Text("--"), Text(boundary), Text(CRLF)], TypeTokens(contentType),
      [Text("Content-Range: "), Text(ContentRange(r, n)), Text(CRLF)],
      [Text(CRLF), Content(OffsetAndLength(r, n).0, OffsetAndLength(r, n).1), Text(CRLF)], body);
    ThreeTexts("--", boundary, CRLF, body);
    TypeBytes(contentType, body);
    ThreeTexts("Content-Range: ", ContentRange(r, n), CRLF, body);
    RangeText(r, n);
    BodyBytes(r, body);
    PartText(r, boundary, contentType, body);
  }

  lemma PartText(r: Range, boundary: string, contentType: string, body: string)
    requires Within(r, |body|)
    ensures Part(r, boundary, contentType, body) ==
      ("--" + boundary + CRLF + TypeText(contentType))
      + (("Content-Range: bytes " + ToString(r.first) + "-" + ToString(r.last) + "/" + ToString(|body|) + CRLF)
         + (CRLF + body[r.first..r.last + 1] + CRLF))
  {
    PartsTogether("--" + boundary + CRLF, TypeText(contentType),
      "Content-Range: bytes " + ToString(r.first) + "-" + ToString(r.last) + "/" + ToString(|body|) + CRLF,
      body[r.first..r.last + 1]);
  }

  lemma PartsTogether(a: string, b: string, c: string, d: string)
    ensures (a + b) + (c + (CRLF + d + CRLF)) == a + b + (c + CRLF) + d + CRLF
  {
  }

  /** The bytes that are produced for accepted ranges are the response: each part names
      its positions and holds exactly these bytes of the content. */
  lemma {:induction false} ResponseIs(rs: seq<Range>, boundary: string, contentType: string, body: string)
    requires forall i :: 0 <= i < |rs| ==> Within(rs[i], |body|)
    ensures Bytes(Tokens(rs, boundary, contentType, |body|), body) == Response(rs, boundary, contentType, body)
  {
    if rs == [] {
      ThreeTexts("--", boundary, "--", body);
    } else {
      BytesConcat(PartTokens(rs[0], boundary, contentType, |body|), Tokens(rs[1..], boundary, contentType, |body|), body);
      PartIs(rs[0], boundary, contentType, body);
      ResponseIs(rs[1..], boundary, contentType, body);
    }
  }

  /** get_multipart_ranges_data_length: only the lengths. */
  function ByteCount(tokens: seq<Token>): nat {
    if tokens == [] then 0 else
    (match tokens[0]
     case Text(s) => |s|
     case Content(_, length) => length)
    + ByteCount(tokens[1..])
  }

  /** All content tokens lie within content of n bytes. */
  predicate InContent(tokens: seq<Token>, n: nat) {
    forall t :: t in tokens && t.Content? ==> t.offset + t.length <= n
  }

  lemma {:induction false} CountIsLength(tokens: seq<Token>, body: string)
    requires InContent(tokens, |body|)
    ensures |Bytes(tokens, body)| == ByteCount(tokens)
  {
    if tokens != [] {
      CountIsLength(tokens[1..], body);
    }
  }

  lemma {:induction false} TokensWithin(rs: seq<Range>, boundary: string, contentType: string, n: nat)
    requires forall i :: 0 <= i < |rs| ==> Within(rs[i], n)
    ensures InContent(Tokens(rs, boundary, contentType, n), n)
  {
    if rs != [] {
      var part, rest := PartTokens(rs[0], boundary, contentType, n), Tokens(rs[1..], boundary, contentType, n);
      TokensWithin(rs[1..], boundary, contentType, n);
      PartWithin(rs[0], boundary, contentType, n);
      forall t: Token | t in part + rest ensures t.Content? ==> t.offset + t.length <= n {
        assert t in part || t in rest;
      }
    }
  }

  lemma PartWithin(r: Range, boundary: string, contentType: string, n: nat)
    requires Within(r, n)
    ensures InContent(PartTokens(r, boundary, contentType, n), n)
  {
  }

  /** For accepted ranges, the announced length of the multipart response is the
      number of bytes that are produced. */
  lemma AnnouncedLength(rs: seq<Range>, boundary: string, contentType: string, body: string)
    requires Acceptable(rs, |body|)
    ensures var tokens := Tokens(rs, boundary, contentType, |body|);
      |Bytes(tokens, body)| == ByteCount(tokens)
  {
    TokensWithin(rs, boundary, contentType, |body|);
    CountIsLength(Tokens(rs, boundary, contentType, |body|), body);
  }

  /** The content bytes among them are the ranges' bytes, at most three times the
      content. */
  function ContentCount(tokens: seq<Token>): nat {
    if tokens == [] then 0 else (if tokens[0].Content? then tokens[0].length else 0) + ContentCount(tokens[1..])
  }

  lemma {:induction false} ContentCountConcat(a: seq<Token>, b: seq<Token>)
    ensures ContentCount(a + b) == ContentCount(a) + ContentCount(b)
  {
    if a == [] {
      assert a + b == b;
    } else {
      assert (a + b)[1..] == a[1..] + b;
      ContentCountConcat(a[1..], b);
    }
  }

  lemma {:induction false} TotalLengthCons(rs: seq<Range>)
    requires rs != []
    ensures TotalLength(rs) == rs[0].last - rs[0].first + 1 + TotalLength(rs[1..])
  {
    if |rs| > 1 {
      var init := rs[..|rs| - 1];
      TotalLengthCons(init);
      assert init[1..] == rs[1..][..|rs| - 2];
    } else {
      assert rs[..0] == [] && rs[1..] == [];
    }
  }

  lemma {:induction false} ContentIsTotal(rs: seq<Range>, boundary: string, contentType: string, n: nat)
    requires forall i :: 0 <= i < |rs| ==> Within(rs[i], n)
    ensures ContentCount(Tokens(rs, boundary, contentType, n)) == TotalLength(rs)
  {
    if rs == [] {
      var closing := [Text("--"), Text(boundary), Text("--")];
      NoContent(closing);
    } else {
      TotalLengthCons(rs);
      var part := PartTokens(rs[0], boundary, contentType, n);
      ContentCountConcat(part, Tokens(rs[1..], boundary, contentType, n));
      ContentIsTotal(rs[1..], boundary, contentType, n);
      PartContent(rs[0], boundary, contentType, n);
    }
  }

  lemma {:induction false} NoContent(tokens: seq<Token>)
    requires forall i :: 0 <= i < |tokens| ==> tokens[i].Text?
    ensures ContentCount(tokens) == 0
  {
    if tokens != [] {
      NoContent(tokens[1..]);
    }
  }

  lemma PartContent(r: Range, boundary: string, contentType: string, n: nat)
    requires Within(r, n)
    ensures ContentCount(PartTokens(r, boundary, contentType, n)) == r.last - r.first + 1
  {
    var (offset, length) := OffsetAndLength(r, n);
    var head := [Text("--"), Text(boundary), Text(CRLF)]
      + (if contentType == "" then [] else [Text("Content-Type: "), Text(contentType), Text(CRLF)])
      + [Text("Content-Range: "), Text(ContentRange(r, n)), Text(CRLF), Text(CRLF)];
    var tail := [Content(offset, length)] + [Text(CRLF)];
    assert PartTokens(r, boundary, contentType, n) == head + tail;
    NoContent(head);
    NoContent([Text(CRLF)]);
    ContentCountConcat(head, tail);
    ContentCountConcat([Content(offset, length)], [Text(CRLF)]);
    assert ContentCount([Content(offset, length)]) == length + ContentCount([]);
  }

  /** An accepted request is answered with at most three times the content. */
  lemma ResponseBound(rs: seq<Range>, boundary: string, contentType: string, n: nat)
    requires Acceptable(rs, n)
    ensures ContentCount(Tokens(rs, boundary, contentType, n)) <= 3 * n
  {
    ContentIsTotal(rs, boundary, contentType, n);
    AtMostThrice(rs, n);
  }
}
