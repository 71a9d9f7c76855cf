/** The text helpers of httplib that its parsers share (Httplib/httplib.h). */
module HttpText {

  const CRLF: string := "\r\n"

  /** CPPHTTPLIB_HEADER_MAX_LENGTH */
  const HEADER_MAX: nat := 8192

  // ----- searching

  /** The first position of c in s, |s| if there is none. */
  function IndexOf(s: string, c: char): (r: nat)
    ensures r <= |s| && c !in s[..r]
    ensures r < |s| ==> s[r] == c
  {
    if s == [] || s[0] == c then 0 else
    var r := 1 + IndexOf(s[1..], c);
    assert s[..r] == [s[0]] + s[1..][..r - 1];
    r
  }

  lemma {:induction false} IndexOfUnique(a: string, c: char, b: string)
    requires c !in a
    ensures IndexOf(a + [c] + b, c) == |a|
  {
    if a != [] {
      assert (a + [c] + b)[1..] == a[1..] + [c] + b;
      IndexOfUnique(a[1..], c, b);
    }
  }

  lemma IndexOfNone(a: string, c: char)
    requires c !in a
    ensures IndexOf(a, c) == |a|
  {
  }

  lemma SliceOfSlice(buf: string, lo: nat, hi: nat, i: nat, j: nat)
    requires lo <= hi <= |buf| && i <= j <= hi - lo
    ensures buf[lo..hi][i..j] == buf[lo + i..lo + j]
  {
    forall k | 0 <= k < j - i ensures buf[lo..hi][i..j][k] == buf[lo + i..lo + j][k] {
    }
  }

  /** s occurs in v at position i. */
  predicate At(v: string, s: string, i: nat) {
    i + |s| <= |v| && v[i..i + |s|] == s
  }

  /** The first position from `from` on at which s occurs in v, |v| if there is none. */
  function FindFrom(v: string, s: string, from: nat): (r: nat)
    requires from <= |v| && |s| > 0
    ensures from <= r <= |v|
    ensures r < |v| ==> At(v, s, r)
    ensures forall i :: from <= i < r ==> !At(v, s, i)
    decreases |v| - from
  {
    if from == |v| || At(v, s, from) then from else FindFrom(v, s, from + 1)
  }

  function Find(v: string, s: string): nat
    requires |s| > 0
  {
    FindFrom(v, s, 0)
  }

  /** An occurrence with none before it is the one that is found. */
  lemma FindIs(v: string, s: string, i: nat)
    requires |s| > 0 && i < |v| && At(v, s, i)
    requires forall j :: 0 <= j < i ==> !At(v, s, j)
    ensures Find(v, s) == i
  {
  }

  lemma AtFirst(v: string, s: string, i: nat)
    requires s != []
    ensures At(v, s, i) ==> v[i] == s[0]
  {
  }

  lemma AtAppend(v: string, w: string, s: string, i: nat)
    requires i + |s| <= |v|
    ensures At(v + w, s, i) == At(v, s, i)
  {
  }

  /** What is found is still found when text arrives behind it. */
  lemma FindAppend(v: string, w: string, s: string)
    requires |s| > 0 && Find(v, s) < |v|
    ensures Find(v + w, s) == Find(v, s)
  {
    var r := Find(v, s);
    AtAppend(v, w, s, r);
    forall j | 0 <= j < r ensures !At(v + w, s, j) {
      if j + |s| <= |v| {
        AtAppend(v, w, s, j);
      }
    }
    FindIs(v + w, s, r);
  }

  /** What is not found in v can only be found in v + w where it reaches into w. */
  lemma FindAppendNone(v: string, w: string, s: string)
    requires |s| > 0 && Find(v, s) == |v|
    ensures Find(v + w, s) + |s| > |v|
  {
    var r := Find(v + w, s);
    if r + |s| <= |v| {
      AtAppend(v, w, s, r);
    }
  }

  /** Dropping text in front of the first occurrence moves it. */
  lemma FindDrop(v: string, s: string, n: nat)
    requires |s| > 0 && n <= |v| && n <= Find(v, s)
    ensures Find(v[n..], s) == Find(v, s) - n
  {
    var r := Find(v, s);
    forall j | 0 <= j <= |v| - n ensures At(v[n..], s, j) == At(v, s, n + j) {
      if j + |s| <= |v| - n {
        assert v[n..][j..j + |s|] == v[n + j..n + j + |s|];
      }
    }
    if r < |v| {
      FindIs(v[n..], s, r - n);
    }
  }

  function Concat(pieces: seq<string>): string {
    if pieces == [] then "" else pieces[0] + Concat(pieces[1..])
  }

  // ----- trimming and splitting

  /** isspace */
  predicate IsSpace(c: char) { c in [' ', '\t', '\n', '\r', 11 as char, 12 as char] }

  function SkipSpace(s: string): string {
    if s != [] && IsSpace(s[0]) then SkipSpace(s[1..]) else s
  }

  predicate IsSpaceOrTab(c: char) { c == ' ' || c == '\t' }

  function TrimLeft(s: string): string {
    if s != [] && IsSpaceOrTab(s[0]) then TrimLeft(s[1..]) else s
  }

  function TrimRight(s: string): string {
    if s != [] && IsSpaceOrTab(s[|s| - 1]) then TrimRight(s[..|s| - 1]) else s
  }

  function Trim(s: string): string { TrimRight(TrimLeft(s)) }

  predicate Trimmed(s: string) {
    s != [] ==> !IsSpaceOrTab(s[0]) && !IsSpaceOrTab(s[|s| - 1])
  }

  function TrimDoubleQuotes(s: string): string {
    if |s| >= 2 && s[0] == '"' && s[|s| - 1] == '"' then s[1..|s| - 1] else s
  }

  /** The pieces of s between the delimiters, trimmed; empty pieces are left out. */
  function Split(s: string, d: char): seq<string>
    decreases |s|
  {
    var i := IndexOf(s, d);
    var piece := Trim(s[..i]);
    (if piece == [] then [] else [piece]) + (if i < |s| then Split(s[i + 1..], d) else [])
  }

  /** A string without the delimiter is one piece. */
  lemma SplitOne(s: string, d: char)
    requires d !in s
    ensures Split(s, d) == if Trim(s) == [] then [] else [Trim(s)]
  {
    IndexOfNone(s, d);
    assert s[..|s|] == s;
  }

  lemma SplitCons(a: string, d: char, b: string)
    requires d !in a
    ensures Split(a + [d] + b, d) == (if Trim(a) == [] then [] else [Trim(a)]) + Split(b, d)
  {
    var s := a + [d] + b;
    IndexOfUnique(a, d, b);
    assert s[..|a|] == a && s[|a| + 1..] == b;
  }

  lemma TrimTrimmed(s: string)
    requires Trimmed(s)
    ensures Trim(s) == s
  {
  }

  // ----- percent decoding

  function HexValue(c: char): int {
    if '0' <= c <= '9' then c as int - '0' as int
    else if 'A' <= c <= 'F' then c as int - 'A' as int + 10
    else if 'a' <= c <= 'f' then c as int - 'a' as int + 10
    else -1
  }

  /** from_hex_to_i: the value of cnt hexadecimal digits at position i, -1 if they
      are not all there. */
  function HexAt(s: string, i: nat, cnt: nat, val: nat): int
    decreases cnt
  {
    if cnt == 0 then val
    else if i >= |s| || HexValue(s[i]) < 0 then -1
    else HexAt(s, i + 1, cnt - 1, val * 16 + HexValue(s[i]))
  }

  function Octet(n: nat): char
    requires n < 256
  {
    n as char
  }

  /** The UTF-8 form of a code point of the basic plane; surrogates have none. */
  function ToUtf8(code: nat): string
    requires code < 0x10000
  {
    if code < 0x80 then [Octet(code)]
    else if code < 0x800 then [Octet(0xC0 + code / 64), Octet(0x80 + code % 64)]
    else if 0xD800 <= code < 0xE000 then []
    else [Octet(0xE0 + code / 4096), Octet(0x80 + code / 64 % 64), Octet(0x80 + code % 64)]
  }

  function DecodeUrl(s: string, plusToSpace: bool): string
    decreases |s|
  {
    if s == [] then []
    else if s[0] == '%' && 1 < |s| then
      if s[1] == 'u' then
        var val := HexAt(s, 2, 4, 0);
        HexBound(s, 2);
        if val >= 0 then ToUtf8(val) + DecodeUrl(s[6..], plusToSpace)
        else ['%'] + DecodeUrl(s[1..], plusToSpace)
      else
        var val := HexAt(s, 1, 2, 0);
        HexBound(s, 1);
        if val >= 0 then [Octet(val)] + DecodeUrl(s[3..], plusToSpace)
        else ['%'] + DecodeUrl(s[1..], plusToSpace)
    else if plusToSpace && s[0] == '+' then [' '] + DecodeUrl(s[1..], plusToSpace)
    else [s[0]] + DecodeUrl(s[1..], plusToSpace)
  }

  /** Text without escapes, and without plus signs where these mean spaces. */
  lemma {:induction false} DecodePlain(s: string, plusToSpace: bool)
    requires '%' !in s && (plusToSpace ==> '+' !in s)
    ensures DecodeUrl(s, plusToSpace) == s
  {
    if s != [] {
      DecodePlain(s[1..], plusToSpace);
    }
  }

  lemma HexBound(s: string, i: nat)
    ensures HexAt(s, i, 2, 0) >= 0 ==> i + 2 <= |s| && HexAt(s, i, 2, 0) < 0x100
    ensures HexAt(s, i, 4, 0) >= 0 ==> i + 4 <= |s| && HexAt(s, i, 4, 0) < 0x10000
  {
  }

  // ----- header lines

  function ToLower(c: char): char {
    if 'A' <= c <= 'Z' || 0xC0 <= c as int <= 0xD6 || 0xD8 <= c as int <= 0xDE
    then (c as int + 32) as char else c
  }

  predicate StartsWithIgnoringCase(a: string, b: string) {
    |a| >= |b| && forall i :: 0 <= i < |b| ==> ToLower(a[i]) == ToLower(b[i])
  }

  predicate EqualIgnoringCase(a: string, b: string) {
    |a| == |b| && StartsWithIgnoringCase(a, b)
  }

  predicate HasBreak(s: string) { '\r' in s || '\n' in s || '\0' in s }

  /** parse_header: whether the line has the form of a header field. */
  predicate IsHeader(line: string) {
    var s := TrimRight(line);
    var colon := IndexOf(s, ':');
    colon < |s| &&
    var raw := TrimLeft(s[colon + 1..]);
    && raw != [] && colon > 0
    && !HasBreak(if EqualIgnoringCase(s[..colon], "Location") then raw else DecodeUrl(raw, false))
  }

  /** The guard of parse_header on the value of a field. */
  predicate ValueOk(value: string) { !HasBreak(DecodeUrl(value, false)) }

  /** A field whose name has no colon and is not Location, and whose value needs no
      trimming, is a header if and only if the guard lets its value through. */
  lemma PlainHeader(name: string, value: string)
    requires name != [] && ':' !in name && !EqualIgnoringCase(name, "Location")
    requires value != [] && Trimmed(value)
    ensures IsHeader(name + ": " + value) <==> ValueOk(value)
  {
    var line := name + ": " + value;
    var rest := [' '] + value;
    assert line == name + [':'] + rest;
    IndexOfUnique(name, ':', rest);
    HeaderParts(line, |name|, name, rest, value);
  }

  lemma HeaderParts(line: string, colon: nat, name: string, rest: string, value: string)
    requires line == name + [':'] + rest && rest == [' '] + value && colon == |name| == IndexOf(line, ':')
    requires name != [] && !EqualIgnoringCase(name, "Location") && value != [] && Trimmed(value)
    ensures IsHeader(line) <==> ValueOk(value)
  {
    assert line[|line| - 1] == value[|value| - 1];
    assert TrimRight(line) == line;
    assert line[..colon] == name && line[colon + 1..] == rest;
    assert rest[1..] == value;
    assert TrimLeft(rest) == value;
  }

  /** Line breaks and NUL are never part of an escape, so decoding keeps them. */
  lemma {:induction false} BreakStays(s: string)
    requires ValueOk(s)
    ensures !HasBreak(s)
    decreases |s|
  {
    if s != [] {
      var n := EscapeLength(s);
      BreakStays(s[n..]);
      assert s == s[..n] + s[n..];
    }
  }

  /** How many characters the first step of decoding consumes. */
  lemma EscapeLength(s: string) returns (n: nat)
    requires s != [] && ValueOk(s)
    ensures 1 <= n <= |s| && ValueOk(s[n..]) && !HasBreak(s[..n])
  {
    n := 1;
    HexBound(s, 1);
    HexBound(s, 2);
    if s[0] == '%' && 1 < |s| {
      if s[1] == 'u' {
        if HexAt(s, 2, 4, 0) >= 0 {
          n := 6;
          HexDigits(s, 2, 4, 0);
        }
      } else if HexAt(s, 1, 2, 0) >= 0 {
        n := 3;
        HexDigits(s, 1, 2, 0);
      }
    }
  }

  lemma {:induction false} HexDigits(s: string, i: nat, cnt: nat, val: nat)
    requires HexAt(s, i, cnt, val) >= 0
    ensures i + cnt <= |s| || cnt == 0
    ensures cnt > 0 ==> forall k :: i <= k < i + cnt ==> HexValue(s[k]) >= 0
    decreases cnt
  {
    if cnt > 0 {
      HexDigits(s, i + 1, cnt - 1, val * 16 + HexValue(s[i]));
    }
  }
}
