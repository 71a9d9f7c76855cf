/** What the text functions of httplib mean, in terms of characters alone
    (Httplib/httplib.h). */
module TextLaws {
  import opened Prelude
  import opened HttpText
  import opened TextLoops

  // ----- letters

  /** The same character, or the same letter in the other case: in Latin-1 the small
      letters stand 32 behind the capital ones. */
  predicate SameLetter(a: char, b: char) { a == b || Capital(a, b) || Capital(b, a) }

  /** c is a capital letter, and d the small one. */
  predicate Capital(c: char, d: char) {
    d as int == c as int + 32 && ('A' <= c <= 'Z' || (0xC0 <= c as int <= 0xDE && c as int != 0xD7))
  }

  /** The table of to_lower tells apart exactly what is not the same letter. */
  lemma LowerMeans(a: char, b: char)
    ensures ToLower(a) == ToLower(b) <==> SameLetter(a, b)
    ensures 'A' <= a <= 'Z' && b as int == a as int + 32 ==> ToLower(a) == ToLower(b)
    ensures 'A' <= a <= 'Z' && 'A' <= b <= 'Z' && a != b ==> ToLower(a) != ToLower(b)
  {
  }

  predicate EitherCase(a: string, b: string) {
    |a| == |b| && forall i :: 0 <= i < |b| ==> SameLetter(a[i], b[i])
  }

  /** A prefix, but for the case of letters. */
  lemma StartsMeans(a: string, b: string)
    ensures StartsWithIgnoringCase(a, b) <==> |a| >= |b| && EitherCase(a[..|b|], b)
  {
    if |a| >= |b| {
      forall i | 0 <= i < |b| ensures ToLower(a[i]) == ToLower(b[i]) <==> SameLetter(a[..|b|][i], b[i]) {
        LowerMeans(a[i], b[i]);
      }
    }
  }

  // ----- trimming

  /** Spaces and tabs around a text go, and nothing else. */
  lemma TrimMeans(a: string, m: string, z: string)
    requires forall k :: 0 <= k < |a| ==> a[k] == ' ' || a[k] == '\t'
    requires forall k :: 0 <= k < |z| ==> z[k] == ' ' || z[k] == '\t'
    requires m != "" ==> m[0] != ' ' && m[0] != '\t' && m[|m| - 1] != ' ' && m[|m| - 1] != '\t'
    ensures Trim(a + m + z) == m
  {
    assert Blank(a) && Blank(z);
    if m == "" { TrimBlank(a + m + z); } else { TrimPadded(a, m, z); }
  }

  /** Every text has such parts. */
  lemma TrimParts(s: string) returns (a: string, m: string, z: string)
    ensures s == a + m + z && Blank(a) && Blank(z) && Trimmed(m) && Trim(s) == m && (m == "" ==> z == "")
  {
    a, m := LeftParts(s);
    m, z := RightParts(m);
    assert s == a + m + z;
    if m == "" {
      TrimBlank(s);
      a, z := s, "";
    } else {
      TrimPadded(a, m, z);
    }
  }

  lemma {:induction false} LeftParts(s: string) returns (a: string, m: string)
    ensures s == a + m && Blank(a) && (m != "" ==> !IsSpaceOrTab(m[0]))
  {
    a, m := "", s;
    if s != "" && IsSpaceOrTab(s[0]) {
      a, m := LeftParts(s[1..]);
      a := [s[0]] + a;
      assert s == [s[0]] + s[1..];
    }
  }

  lemma {:induction false} RightParts(s: string) returns (m: string, z: string)
    requires s != "" ==> !IsSpaceOrTab(s[0])
    ensures s == m + z && Blank(z) && Trimmed(m)
  {
    m, z := s, "";
    if s != "" && IsSpaceOrTab(s[|s| - 1]) {
      m, z := RightParts(s[..|s| - 1]);
      z := z + [s[|s| - 1]];
      assert s == s[..|s| - 1] + [s[|s| - 1]];
    }
  }

  // ----- white space

  predicate White(s: string) { forall i :: 0 <= i < |s| ==> s[i] == ' ' || 9 <= s[i] as int <= 13 }

  predicate Visible(text: string) { text != "" ==> text[0] != ' ' && !(9 <= text[0] as int <= 13) }

  /** isspace; the text goes on with something else. */
  lemma {:induction false} SkipWhite(w: string, text: string)
    requires White(w) && Visible(text)
    ensures SkipSpace(w + text) == text
  {
    if w == "" {
      assert w + text == text;
    } else {
      assert (w + text)[1..] == w[1..] + text;
      SkipWhite(w[1..], text);
    }
  }

  // ----- splitting

  /** Behind the last delimiter. */
  lemma {:induction false} SplitSnoc(a: string, d: char, b: string)
    requires d !in b
    ensures Split(a + [d] + b, d) == Split(a, d) + Piece(b)
    decreases |a|
  {
    var i := IndexOf(a, d);
    if i == |a| {
      SplitCons(a, d, b);
      SplitOne(a, d);
      SplitOne(b, d);
    } else {
      var front, rest := a[..i], a[i + 1..];
      assert a == front + [d] + rest && a + [d] + b == front + [d] + (rest + [d] + b);
      SplitCons(front, d, rest + [d] + b);
      SplitCons(front, d, rest);
      SplitSnoc(rest, d, b);
      AppendAssoc(Piece(front), Split(rest, d), Piece(b));
    }
  }

  // ----- header fields

  /** parse_header takes a line exactly when there is a name in front of the first
      colon, something other than blanks behind it, and no CR, LF or NUL in that once it
      is decoded; the value of Location is not decoded. */
  lemma HeaderMeans(name: string, value: string)
    requires ':' !in name
    ensures IsHeader(name + [':'] + value) <==>
      && name != "" && Trim(value) != ""
      && var v := if EitherCase(name, "Location") then Trim(value) else DecodeUrl(Trim(value), false);
        '\r' !in v && '\n' !in v && '\0' !in v
  {
    var a, m, z := TrimParts(value);
    if m == "" { BlankHeader(name, value); } else { FilledHeader(name, value, a, m, z); }
  }

  lemma BlankHeader(name: string, value: string)
    requires ':' !in name && Blank(value)
    ensures !IsHeader(name + [':'] + value)
  {
    TrimRightBlank(name + [':'], value);
    ColonPlace(name, "");
    assert name + [':'] + "" == name + [':'];
    HeaderIs(name + [':'] + value, name + [':'], name, "");
  }

  lemma FilledHeader(name: string, value: string, a: string, m: string, z: string)
    requires ':' !in name && value == a + m + z && Blank(a) && Blank(z) && m != "" && Trimmed(m)
    ensures IsHeader(name + [':'] + value) <==>
      name != "" && !HasBreak(if EitherCase(name, "Location") then m else DecodeUrl(m, false))
  {
    var s := name + [':'] + (a + m);
    assert name + [':'] + value == s + z;
    assert s[|s| - 1] == m[|m| - 1];
    TrimRightBlank(s, z);
    ColonPlace(name, a + m);
    assert a + m + "" == a + m && m + "" == m;
    TrimLeftPadded(a, m, "");
    HeaderIs(name + [':'] + value, s, name, m);
  }

  lemma HeaderIs(line: string, s: string, name: string, raw: string)
    requires s == TrimRight(line) && IndexOf(s, ':') == |name| < |s|
    requires s[..|name|] == name && TrimLeft(s[|name| + 1..]) == raw
    ensures IsHeader(line) <==>
      raw != "" && name != "" && !HasBreak(if EitherCase(name, "Location") then raw else DecodeUrl(raw, false))
  {
    LocationMeans(name);
  }

  lemma LocationMeans(name: string)
    ensures EqualIgnoringCase(name, "Location") <==> EitherCase(name, "Location")
  {
    StartsMeans(name, "Location");
    assert |name| == |"Location"| ==> name[..|"Location"|] == name;
  }

  lemma ColonPlace(name: string, rest: string)
    requires ':' !in name
    ensures var s := name + [':'] + rest; IndexOf(s, ':') == |name| && s[..|name|] == name && s[|name| + 1..] == rest
  {
    IndexOfUnique(name, ':', rest);
  }

  lemma {:induction false} TrimRightBlank(s: string, z: string)
    requires Blank(z) && (s != "" ==> !IsSpaceOrTab(s[|s| - 1]))
    ensures TrimRight(s + z) == s
  {
    if z == "" {
      assert s + z == s;
    } else {
      assert (s + z)[..|s + z| - 1] == s + z[..|z| - 1];
      TrimRightBlank(s, z[..|z| - 1]);
    }
  }

  lemma NoColonNoHeader(line: string)
    requires ':' !in line
    ensures !IsHeader(line)
  {
    TrimRightPart(line);
    IndexOfNone(TrimRight(line), ':');
  }

  lemma {:induction false} TrimRightPart(s: string)
    ensures TrimRight(s) <= s
  {
    if s != "" && IsSpaceOrTab(s[|s| - 1]) {
      TrimRightPart(s[..|s| - 1]);
    }
  }

  // ----- percent decoding

  const LOWER_DIGITS: string := "0123456789abcdef"
  const UPPER_DIGITS: string := "0123456789ABCDEF"

  lemma HexValueMeans(c: char, d: nat)
    requires d < 16
    ensures HexValue(c) == d <==> c == LOWER_DIGITS[d] || c == UPPER_DIGITS[d]
  {
  }

  /** An escape of two digits, in either case. */
  lemma DecodeEscaped(h: char, l: char, rest: string, plusToSpace: bool)
    requires HexValue(h) >= 0 && HexValue(l) >= 0
    ensures DecodeUrl(['%', h, l] + rest, plusToSpace)
         == [(16 * HexValue(h) + HexValue(l)) as char] + DecodeUrl(rest, plusToSpace)
  {
    var s := ['%', h, l] + rest;
    assert s[0] == '%' && s[1] == h && s[2] == l && s[3..] == rest;
    TwoDigits(s, 1);
  }

  lemma TwoDigits(s: string, i: nat)
    ensures HexAt(s, i, 2, 0) ==
      if i + 2 <= |s| && HexValue(s[i]) >= 0 && HexValue(s[i + 1]) >= 0 then 16 * HexValue(s[i]) + HexValue(s[i + 1]) else -1
  {
    if i + 2 <= |s| && HexValue(s[i]) >= 0 && HexValue(s[i + 1]) >= 0 {
      var v := HexValue(s[i]);
      assert HexAt(s, i, 2, 0) == HexAt(s, i + 1, 1, v) == HexAt(s, i + 2, 0, v * 16 + HexValue(s[i + 1]));
    }
  }

  predicate FourHex(s: string) { |s| >= 4 && forall k :: 0 <= k < 4 ==> HexValue(s[k]) >= 0 }

  lemma FourDigits(s: string, i: nat)
    requires i <= |s|
    ensures HexAt(s, i, 4, 0) == if FourHex(s[i..]) then FourValue(s[i..]) else -1
  {
    if FourHex(s[i..]) {
      assert forall k :: 0 <= k < 4 ==> s[i..][k] == s[i + k];
      var a, b, c, d := HexValue(s[i]), HexValue(s[i + 1]), HexValue(s[i + 2]), HexValue(s[i + 3]);
      assert HexAt(s, i + 2, 2, a * 16 + b) == HexAt(s, i + 3, 1, (a * 16 + b) * 16 + c)
          == HexAt(s, i + 4, 0, ((a * 16 + b) * 16 + c) * 16 + d);
      assert HexAt(s, i, 4, 0) == HexAt(s, i + 1, 3, a) == HexAt(s, i + 2, 2, a * 16 + b);
    } else {
      NotFour(s, i);
    }
  }

  lemma NotFour(s: string, i: nat)
    requires i <= |s| && !FourHex(s[i..])
    ensures HexAt(s, i, 4, 0) == -1
  {
    if HexAt(s, i, 4, 0) >= 0 {
      HexDigits(s, i, 4, 0);
      forall k | 0 <= k < 4 ensures HexValue(s[i..][k]) >= 0 {
        assert s[i..][k] == s[i + k];
      }
    }
  }

  function FourValue(s: string): nat
    requires FourHex(s)
  {
    4096 * HexValue(s[0]) + 256 * HexValue(s[1]) + 16 * HexValue(s[2]) + HexValue(s[3])
  }

  /** An escape of four digits stands for a code point. */
  lemma DecodeUnicode(digits: string, rest: string, plusToSpace: bool)
    requires |digits| == 4 && FourHex(digits)
    ensures FourValue(digits) < 0x10000
    ensures DecodeUrl(['%', 'u'] + digits + rest, plusToSpace) == ToUtf8(FourValue(digits)) + DecodeUrl(rest, plusToSpace)
  {
    var s := ['%', 'u'] + digits + rest;
    assert s[2..] == digits + rest && s[6..] == rest && s[0] == '%' && s[1] == 'u';
    assert forall k :: 0 <= k < 4 ==> s[2..][k] == digits[k];
    FourDigits(s, 2);
    DecodeWide(s, FourValue(digits), rest, plusToSpace);
  }

  lemma DecodeWide(s: string, val: nat, rest: string, plusToSpace: bool)
    requires |s| >= 6 && s[0] == '%' && s[1] == 'u' && s[6..] == rest && HexAt(s, 2, 4, 0) == val
    ensures val < 0x10000 && DecodeUrl(s, plusToSpace) == ToUtf8(val) + DecodeUrl(rest, plusToSpace)
  {
    HexBound(s, 2);
  }

  /** A percent sign that begins no escape stays, and so does every other character, but
      for the plus sign of a form, which stands for a space. */
  lemma DecodeOther(c: char, rest: string, plusToSpace: bool)
    requires c == '%' ==>
      if rest != "" && rest[0] == 'u' then !FourHex(rest[1..])
      else !(|rest| >= 2 && HexValue(rest[0]) >= 0 && HexValue(rest[1]) >= 0)
    ensures DecodeUrl([c] + rest, plusToSpace)
         == [if c == '+' && plusToSpace then ' ' else c] + DecodeUrl(rest, plusToSpace)
  {
    var s := [c] + rest;
    assert s[1..] == rest;
    if c == '%' && rest != "" {
      if rest[0] == 'u' {
        assert s[2..] == rest[1..];
        FourDigits(s, 2);
      } else {
        TwoDigits(s, 1);
      }
    }
  }

  // ----- UTF-8

  /** The code point that one to three octets stand for (RFC 3629 section 3). */
  function Utf8Value(s: string): int {
    if |s| == 1 && s[0] as int < 0x80 then s[0] as int
    else if |s| == 2 && 0xC0 <= s[0] as int < 0xE0 && 0x80 <= s[1] as int < 0xC0 then
      0x40 * (s[0] as int - 0xC0) + (s[1] as int - 0x80)
    else if |s| == 3 && 0xE0 <= s[0] as int < 0xF0 && 0x80 <= s[1] as int < 0xC0 && 0x80 <= s[2] as int < 0xC0 then
      0x1000 * (s[0] as int - 0xE0) + 0x40 * (s[1] as int - 0x80) + (s[2] as int - 0x80)
    else -1
  }

  /** The octets of a code point stand for it; surrogates have none. */
  lemma Utf8RoundTrip(code: nat)
    requires code < 0x10000
    ensures 0xD800 <= code <= 0xDFFF ==> ToUtf8(code) == ""
    ensures !(0xD800 <= code <= 0xDFFF) ==> Utf8Value(ToUtf8(code)) == code
    ensures |ToUtf8(code)| <= 3 && (code < 0x800 ==> |ToUtf8(code)| <= 2) && (code < 0x80 ==> |ToUtf8(code)| <= 1)
  {
  }
}
