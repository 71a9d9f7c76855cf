/** Query strings of httplib (Httplib/httplib.h; RFC 3986 section 2.1): percent
    encoding, printing parameters and reading them back. */
module QueryStrings {
  import opened Prelude
  import opened HttpText
  import opened TextLoops
  import opened TextLaws

  type Param = (string, string)

  predicate Bytes(s: string) { forall i :: 0 <= i < |s| ==> s[i] as int < 256 }

  // ----- percent encoding

  predicate Unescaped(c: char) {
    || '0' <= c <= '9' || 'a' <= c <= 'z' || 'A' <= c <= 'Z'
    || c in ['-', '_', '.', '!', '~', '*', '\'', '(', ')']
  }

  function UpperHex(d: nat): (c: char)
    requires d < 16
    ensures HexValue(c) == d && c != 'u' && Unescaped(c)
  {
    if d < 10 then (d + '0' as int) as char else (d - 10 + 'A' as int) as char
  }

  function Escape(c: char): string
    requires c as int < 256
  {
    if Unescaped(c) then [c] else ['%', UpperHex(c as int / 16), UpperHex(c as int % 16)]
  }

  function Encode(s: string): string
    requires Bytes(s)
  {
    if s == [] then [] else Escape(s[0]) + Encode(s[1..])
  }

  /** encode_query_param */
  method EncodeQueryParam(value: string) returns (escaped: string)
    requires Bytes(value)
    ensures escaped == Encode(value)
  {
    escaped := "";
    for i := 0 to |value|
      invariant escaped + Encode(value[i..]) == Encode(value)
    {
      var c := value[i];
      assert value[i..][0] == c && value[i..][1..] == value[i + 1..];
      AppendAssoc(escaped, Escape(c), Encode(value[i + 1..]));
      if Unescaped(c) {
        escaped := escaped + [c];
      } else {
        escaped := escaped + ['%', UpperHex(c as int / 16), UpperHex(c as int % 16)];
      }
    }
  }

  lemma DecodeEscape(c: char, rest: string)
    requires c as int < 256
    ensures DecodeUrl(Escape(c) + rest, true) == [c] + DecodeUrl(rest, true)
  {
    var s := Escape(c) + rest;
    if Unescaped(c) {
      assert s[0] == c && s[1..] == rest;
    } else {
      var h, l := UpperHex(c as int / 16), UpperHex(c as int % 16);
      assert s[0] == '%' && s[1] == h && s[2] == l && s[3..] == rest;
      assert HexAt(s, 3, 0, c as int) == c as int;
      assert HexAt(s, 2, 1, c as int / 16) == c as int;
      assert HexAt(s, 1, 2, 0) == c as int;
    }
  }

  /** Every byte string survives encoding and decoding. */
  lemma {:induction false} EncodeRoundTrip(s: string)
    requires Bytes(s)
    ensures DecodeUrl(Encode(s), true) == s
  {
    if s != [] {
      EncodeRoundTrip(s[1..]);
      DecodeEscape(s[0], Encode(s[1..]));
    }
  }

  // ----- printing and reading parameters

  function Print(p: Param): string
    requires Bytes(p.1)
  {
    p.0 + ['='] + Encode(p.1)
  }

  predicate ValuesAreBytes(params: seq<Param>) { forall i :: 0 <= i < |params| ==> Bytes(params[i].1) }

  function PrintAll(params: seq<Param>): string
    requires ValuesAreBytes(params)
  {
    if params == [] then []
    else if |params| == 1 then Print(params[0])
    else Print(params[0]) + ['&'] + PrintAll(params[1..])
  }

  /** params_to_query_str, for the parameters in the order of the multimap. */
  method ParamsToQueryStr(params: seq<Param>) returns (query: string)
    requires ValuesAreBytes(params)
    ensures query == PrintAll(params)
  {
    query := "";
    for i := 0 to |params|
      invariant query == PrintAll(params[..i])
    {
      PrintSnoc(params[..i], params[i]);
      assert params[..i + 1] == params[..i] + [params[i]];
      if i != 0 { query := query + ['&']; }
      query := query + params[i].0;
      query := query + ['='];
      var value := EncodeQueryParam(params[i].1);
      query := query + value;
    }
    assert params[..|params|] == params;
  }

  lemma {:induction false} PrintSnoc(params: seq<Param>, p: Param)
    requires ValuesAreBytes(params) && Bytes(p.1)
    ensures ValuesAreBytes(params + [p])
    ensures PrintAll(params + [p]) ==
      (if params == [] then [] else PrintAll(params) + ['&']) + p.0 + ['='] + Encode(p.1)
  {
    var all := params + [p];
    if |params| == 0 {
      assert all == [p];
    } else {
      var first, rest := params[0], params[1..];
      assert all[0] == first && all[1..] == rest + [p];
      PrintSnoc(rest, p);
      if rest == [] {
        assert params == [first];
        PrintAssoc(Print(first), "", p.0, Encode(p.1));
      } else {
        PrintAssoc(Print(first), PrintAll(rest), p.0, Encode(p.1));
      }
    }
  }

  lemma PrintAssoc(first: string, rest: string, key: string, value: string)
    ensures first + ['&'] + (rest + ['&'] + key + ['='] + value) == (first + ['&'] + rest) + ['&'] + key + ['='] + value
    ensures first + ['&'] + (key + ['='] + value) == first + ['&'] + key + ['='] + value
  {
  }

  /** What one piece stands for: key and value around the first '=', decoded; no
      parameter if the key is empty. */
  function ReadPiece(kv: string): seq<Param> {
    var i := IndexOf(kv, '=');
    if i == 0 then [] else
    [(DecodeUrl(kv[..i], true), DecodeUrl(if i < |kv| then kv[i + 1..] else "", true))]
  }

  /** parse_query_text: pieces seen before are passed over. */
  function ReadPieces(pieces: seq<string>, cache: set<string>): seq<Param> {
    if pieces == [] then []
    else if pieces[0] in cache then ReadPieces(pieces[1..], cache)
    else ReadPiece(pieces[0]) + ReadPieces(pieces[1..], cache + {pieces[0]})
  }

  method ParseQueryText(s: string) returns (params: seq<Param>)
    ensures params == ReadPieces(Split(s, '&'), {})
  {
    var pieces := SplitAll(s, '&');
    params := [];
    var cache: set<string> := {};
    for i := 0 to |pieces|
      invariant params + ReadPieces(pieces[i..], cache) == ReadPieces(pieces, {})
    {
      var kv := pieces[i];
      PieceTurn(pieces, i, cache);
      if kv !in cache {
        cache := cache + {kv};
        AppendAssoc(params, ReadPiece(kv), ReadPieces(pieces[i + 1..], cache));
        var p := ParsePiece(kv);
        params := params + p;
      }
    }
  }

  lemma PieceTurn(pieces: seq<string>, i: nat, cache: set<string>)
    requires i < |pieces|
    ensures ReadPieces(pieces[i..], cache) ==
      if pieces[i] in cache then ReadPieces(pieces[i + 1..], cache)
      else ReadPiece(pieces[i]) + ReadPieces(pieces[i + 1..], cache + {pieces[i]})
  {
    assert pieces[i..][0] == pieces[i] && pieces[i..][1..] == pieces[i + 1..];
  }

  method ParsePiece(kv: string) returns (p: seq<Param>)
    ensures p == ReadPiece(kv)
  {
    var j := IndexOf(kv, '=');
    var key, val := kv[..j], if j < |kv| then kv[j + 1..] else "";
    p := [];
    if key != "" {
      var k := DecodeUrlLoop(key, true);
      var v := DecodeUrlLoop(val, true);
      p := [(k, v)];
    }
  }

  // ----- the law

  /** A key that the splitting of the query leaves whole. */
  predicate KeyTextOk(k: string) { k != "" && '&' !in k && '=' !in k && !IsSpaceOrTab(k[0]) }

  /** A key that the query syntax carries unchanged: the printer does not escape it,
      and the reader decodes it. */
  predicate KeyOk(k: string) {
    KeyTextOk(k) && DecodeUrl(k, true) == k
  }

  predicate ParamsOk(params: seq<Param>) {
    ValuesAreBytes(params) && forall i :: 0 <= i < |params| ==> KeyOk(params[i].0)
  }

  /** The parameters without those that occur before, or are in `seen`. */
  function Distinct(params: seq<Param>, seen: set<Param>): seq<Param> {
    if params == [] then []
    else if params[0] in seen then Distinct(params[1..], seen)
    else [params[0]] + Distinct(params[1..], seen + {params[0]})
  }

  lemma {:induction false} EncodedChars(s: string)
    requires Bytes(s)
    ensures forall c :: c in Encode(s) ==> Unescaped(c) || c == '%'
  {
    if s != [] {
      EncodedChars(s[1..]);
    }
  }

  /** A printed parameter is one piece. */
  lemma PrintedPiece(p: Param)
    requires Bytes(p.1) && KeyOk(p.0)
    ensures '&' !in Print(p) && Print(p) != "" && Trim(Print(p)) == Print(p)
  {
    var kv := Print(p);
    EncodedChars(p.1);
    assert kv[0] == p.0[0];
    assert kv[|kv| - 1] == '=' || kv[|kv| - 1] in Encode(p.1);
    TrimTrimmed(kv);
  }

  /** A printed parameter reads back if and only if decoding leaves its key alone. */
  lemma ReadPrinted(p: Param)
    requires Bytes(p.1) && KeyTextOk(p.0)
    ensures ReadPiece(Print(p)) == [(DecodeUrl(p.0, true), p.1)]
    ensures ReadPiece(Print(p)) == [p] <==> KeyOk(p.0)
  {
    var kv := Print(p);
    IndexOfUnique(p.0, '=', Encode(p.1));
    assert kv[..|p.0|] == p.0 && kv[|p.0| + 1..] == Encode(p.1);
    EncodeRoundTrip(p.1);
    assert [(DecodeUrl(p.0, true), p.1)][0] == (DecodeUrl(p.0, true), p.1);
  }

  /** Different parameters are printed differently. */
  lemma PrintInjective(p: Param, q: Param)
    requires Bytes(p.1) && KeyOk(p.0) && Bytes(q.1) && KeyOk(q.0) && Print(p) == Print(q)
    ensures p == q
  {
    ReadPrinted(p);
    ReadPrinted(q);
    assert [p] == [q];
    assert [p][0] == [q][0];
  }

  function PrintEach(params: seq<Param>): seq<string>
    requires ValuesAreBytes(params)
  {
    if params == [] then [] else [Print(params[0])] + PrintEach(params[1..])
  }

  lemma {:induction false} SplitPrinted(params: seq<Param>)
    requires ParamsOk(params)
    ensures Split(PrintAll(params), '&') == PrintEach(params)
    decreases |params|
  {
    if params == [] {
      SplitOne("", '&');
    } else {
      PrintedPiece(params[0]);
      if |params| == 1 {
        SplitOne(Print(params[0]), '&');
        assert PrintEach(params[1..]) == [];
      } else {
        SplitCons(Print(params[0]), '&', PrintAll(params[1..]));
        SplitPrinted(params[1..]);
      }
    }
  }

  /** The pieces in the cache are those of the parameters seen. */
  ghost predicate Remembers(cache: set<string>, seen: set<Param>) {
    && (forall p :: p in seen ==> Bytes(p.1) && KeyOk(p.0))
    && (forall s :: s in cache <==> exists p :: p in seen && Bytes(p.1) && Print(p) == s)
  }

  lemma RememberMore(cache: set<string>, seen: set<Param>, p: Param)
    requires Remembers(cache, seen) && Bytes(p.1) && KeyOk(p.0)
    ensures Remembers(cache + {Print(p)}, seen + {p})
    ensures Print(p) in cache <==> p in seen
  {
    if Print(p) in cache {
      var q :| q in seen && Bytes(q.1) && Print(q) == Print(p);
      PrintInjective(p, q);
    }
    var cache', seen' := cache + {Print(p)}, seen + {p};
    forall s | s in cache' ensures exists q :: q in seen' && Bytes(q.1) && Print(q) == s {
      if s == Print(p) {
        assert p in seen';
      } else {
        var q :| q in seen && Bytes(q.1) && Print(q) == s;
        assert q in seen';
      }
    }
  }

  lemma {:induction false} ReadEach(params: seq<Param>, cache: set<string>, seen: set<Param>)
    requires ParamsOk(params) && Remembers(cache, seen)
    ensures ReadPieces(PrintEach(params), cache) == Distinct(params, seen)
    decreases |params|
  {
    if params != [] {
      var p := params[0];
      RememberMore(cache, seen, p);
      ReadPrinted(p);
      assert PrintEach(params)[0] == Print(p) && PrintEach(params)[1..] == PrintEach(params[1..]);
      if p in seen {
        ReadEach(params[1..], cache, seen);
      } else {
        ReadEach(params[1..], cache + {Print(p)}, seen + {p});
      }
    }
  }

  /** Reading what was printed gives exactly the distinct parameters, in order. */
  lemma QueryRoundTrip(params: seq<Param>)
    requires ParamsOk(params)
    ensures ReadPieces(Split(PrintAll(params), '&'), {}) == Distinct(params, {})
  {
    SplitPrinted(params);
    ReadEach(params, {}, {});
  }

  /** What the distinct parameters are: the same ones, each once. */
  lemma {:induction false} DistinctOnce(params: seq<Param>, seen: set<Param>, p: Param)
    ensures multiset(Distinct(params, seen))[p] == if p in params && p !in seen then 1 else 0
    decreases |params|
  {
    if params != [] {
      assert params == [params[0]] + params[1..];
      DistinctOnce(params[1..], if params[0] in seen then seen else seen + {params[0]}, p);
    }
  }

  // ----- what is escaped

  /** Letters, digits and nine marks stay; every other byte becomes a percent sign and
      two digits, the letters among them capital. */
  lemma EscapeMeans(c: char)
    requires c as int < 256
    ensures Escape(c) ==
      if '0' <= c <= '9' || 'a' <= c <= 'z' || 'A' <= c <= 'Z' || c in "-_.!~*'()" then [c]
      else ['%', UPPER_DIGITS[c as int / 16], UPPER_DIGITS[c as int % 16]]
  {
    HexValueMeans(UpperHex(c as int / 16), c as int / 16);
    HexValueMeans(UpperHex(c as int % 16), c as int % 16);
    assert LOWER_DIGITS[0] == '0';
  }

  lemma {:induction false} EncodeConcat(a: string, b: string)
    requires Bytes(a) && Bytes(b)
    ensures Encode(a + b) == Encode(a) + Encode(b)
  {
    if a == "" {
      assert a + b == b;
    } else {
      assert (a + b)[1..] == a[1..] + b;
      EncodeConcat(a[1..], b);
    }
  }

  /** A piece without a key is passed over; one without '=' has an empty value; a plus
      sign stands for a space. */
  lemma PieceMeans(key: string, value: string)
    requires '=' !in key
    ensures ReadPiece(key + ['='] + value) ==
      if key == "" then [] else [(DecodeUrl(key, true), DecodeUrl(value, true))]
    ensures ReadPiece(key) == if key == "" then [] else [(DecodeUrl(key, true), "")]
  {
    var kv := key + ['='] + value;
    IndexOfUnique(key, '=', value);
    IndexOfNone(key, '=');
    assert kv[..|key|] == key && kv[|key| + 1..] == value && key[..|key|] == key;
  }
}
