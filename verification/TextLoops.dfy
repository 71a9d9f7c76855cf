/** The loops of httplib behind the text functions (Httplib/httplib.h). */
module TextLoops {
  import opened Prelude
  import opened HttpText

  // ----- percent decoding

  /** decode_url, character by character. */
  method DecodeUrlLoop(s: string, plusToSpace: bool) returns (result: string)
    ensures result == DecodeUrl(s, plusToSpace)
  {
    result := "";
    var i := 0;
    ghost var left := s;
    while i < |s|
      invariant i <= |s| && left == s[i..] && result + DecodeUrl(left, plusToSpace) == DecodeUrl(s, plusToSpace)
    {
      var piece, n := DecodeOne(s[i..], plusToSpace);
      AppendAssoc(result, piece, DecodeUrl(left[n..], plusToSpace));
      left := left[n..];
      DropTwice(s, i, n);
      result := result + piece;
      i := i + n;
    }
    assert result + "" == result;
  }

  lemma DropTwice(s: string, i: nat, n: nat)
    requires i + n <= |s|
    ensures s[i..][n..] == s[i + n..]
  {
  }

  /** One turn of that loop: what is appended and how far it moves on. */
  method DecodeOne(s: string, plusToSpace: bool) returns (piece: string, n: nat)
    requires s != ""
    ensures 1 <= n <= |s|
    ensures DecodeUrl(s, plusToSpace) == piece + DecodeUrl(s[n..], plusToSpace)
  {
    HexBound(s, 1);
    HexBound(s, 2);
    if s[0] == '%' && 1 < |s| {
      if s[1] == 'u' {
        var val := HexAt(s, 2, 4, 0);
        if val >= 0 { return ToUtf8(val), 6; }
      } else {
        var val := HexAt(s, 1, 2, 0);
        if val >= 0 { return [Octet(val)], 3; }
      }
      return ['%'], 1;
    }
    if plusToSpace && s[0] == '+' { return [' '], 1; }
    return [s[0]], 1;
  }

  // ----- splitting

  /** trim: moves both ends over spaces and tabs. The two loops stop at the ends of
      the whole text, so the ends may pass each other; that means nothing is left. */
  method TrimRange(b: string, from: nat, to: nat) returns (left: nat, right: nat)
    requires from <= to <= |b|
    ensures left >= right ==> Trim(b[from..to]) == []
    ensures left < right ==> right <= |b| && b[left..right] != [] && Trim(b[from..to]) == b[left..right]
  {
    left, right := from, to;
    while left < |b| && IsSpaceOrTab(b[left])
      invariant from <= left <= |b|
      invariant forall k :: from <= k < left ==> IsSpaceOrTab(b[k])
    {
      left := left + 1;
    }
    while right > 0 && IsSpaceOrTab(b[right - 1])
      invariant right <= to
      invariant forall k :: right <= k < to ==> IsSpaceOrTab(b[k])
    {
      right := right - 1;
    }
    TrimmedAt(b, from, to, left, right);
  }

  lemma TrimmedAt(b: string, from: nat, to: nat, left: nat, right: nat)
    requires from <= to <= |b| && from <= left <= |b| && right <= to
    requires forall k :: from <= k < left ==> IsSpaceOrTab(b[k])
    requires forall k :: right <= k < to ==> IsSpaceOrTab(b[k])
    requires left < |b| ==> !IsSpaceOrTab(b[left])
    requires right > 0 ==> !IsSpaceOrTab(b[right - 1])
    ensures left >= right ==> Trim(b[from..to]) == []
    ensures left < right ==> Trim(b[from..to]) == b[left..right]
  {
    if left < right {
      assert b[from..to] == b[from..left] + b[left..right] + b[right..to];
      TrimPadded(b[from..left], b[left..right], b[right..to]);
    } else {
      TrimBlank(b[from..to]);
    }
  }

  ghost predicate Blank(s: string) { forall k :: 0 <= k < |s| ==> IsSpaceOrTab(s[k]) }

  lemma {:induction false} TrimBlank(s: string)
    requires Blank(s)
    ensures Trim(s) == []
  {
    if s != [] { TrimBlank(s[1..]); }
  }

  lemma TrimPadded(a: string, m: string, z: string)
    requires Blank(a) && Blank(z) && m != [] && Trimmed(m)
    ensures Trim(a + m + z) == m
  {
    TrimLeftPadded(a, m, z);
    TrimRightPadded(m, z);
  }

  lemma {:induction false} TrimLeftPadded(a: string, m: string, z: string)
    requires Blank(a) && m != [] && Trimmed(m)
    ensures TrimLeft(a + m + z) == m + z
  {
    if a != [] {
      assert (a + m + z)[1..] == a[1..] + m + z;
      TrimLeftPadded(a[1..], m, z);
    } else {
      assert a + m + z == m + z;
    }
  }

  lemma {:induction false} TrimRightPadded(m: string, z: string)
    requires Blank(z) && m != [] && Trimmed(m)
    ensures TrimRight(m + z) == m
  {
    if z != [] {
      assert (m + z)[..|m + z| - 1] == m + z[..|z| - 1];
      TrimRightPadded(m, z[..|z| - 1]);
    } else {
      assert m + z == m;
    }
  }

  /** What one segment adds: itself, trimmed, unless that is empty. */
  function Piece(s: string): seq<string> {
    if Trim(s) == [] then [] else [Trim(s)]
  }

  /** At most m segments: the last one may hold further delimiters. */
  function SplitMost(s: string, d: char, m: nat): seq<string>
    decreases m
  {
    var i := IndexOf(s, d);
    if i == |s| || m <= 1 then Piece(s) else Piece(s[..i]) + SplitMost(s[i + 1..], d, m - 1)
  }

  /** The limit does not matter if it is larger than the text. */
  lemma {:induction false} SplitMostIsSplit(s: string, d: char, m: nat)
    requires m > |s|
    ensures SplitMost(s, d, m) == Split(s, d)
    decreases m
  {
    var i := IndexOf(s, d);
    if i < |s| {
      SplitMostIsSplit(s[i + 1..], d, m - 1);
    } else {
      assert s[..i] == s;
    }
  }

  /** Where the loop of split stands: the segment begun at `beg` has no delimiter
      so far at which it may end, `pieces` are those of the text before it, and r
      segments may still follow. */
  ghost predicate Splitting(s: string, d: char, m: nat, beg: nat, i: nat, r: int, pieces: seq<string>) {
    beg <= i <= |s| && r >= 0 && (r > 1 ==> d !in s[beg..i]) && pieces + SplitMost(s[beg..], d, r) == SplitMost(s, d, m)
  }

  /** split, with its limit: the pieces that its callback is given. */
  method SplitLoop(s: string, d: char, m: nat) returns (pieces: seq<string>)
    ensures pieces == SplitMost(s, d, m)
  {
    pieces := [];
    var i, beg, count := 0, 0, 1;
    SplitBegin(s, d, m);
    ghost var r: int := m;
    while i < |s|
      invariant r == m - count + 1 && Splitting(s, d, m, beg, i, r, pieces)
    {
      SplitStep(s, d, m, beg, i, r, pieces);
      if s[i] == d && count < m {
        pieces := AddPiece(pieces, s, beg, i);
        beg, count, r := i + 1, count + 1, r - 1;
      }
      i := i + 1;
    }
    SplitEnd(s, d, m, beg, r, pieces);
    if i > 0 {
      pieces := AddPiece(pieces, s, beg, i);
    }
  }

  /** split without a limit. */
  method SplitAll(s: string, d: char) returns (pieces: seq<string>)
    ensures pieces == Split(s, d)
  {
    SplitMostIsSplit(s, d, |s| + 1);
    pieces := SplitLoop(s, d, |s| + 1);
  }

  /** The callback of split, for one segment. */
  method AddPiece(pieces: seq<string>, s: string, from: nat, to: nat) returns (more: seq<string>)
    requires from <= to <= |s|
    ensures more == pieces + Piece(s[from..to])
  {
    more := pieces;
    var left, right := TrimRange(s, from, to);
    if left < right { more := more + [s[left..right]]; }
  }

  lemma SplitBegin(s: string, d: char, m: nat)
    ensures Splitting(s, d, m, 0, 0, m, [])
  {
    assert s[0..] == s;
  }

  lemma SplitStep(s: string, d: char, m: nat, beg: nat, i: nat, r: int, pieces: seq<string>)
    requires i < |s| && Splitting(s, d, m, beg, i, r, pieces)
    ensures s[i] != d || r <= 1 ==> Splitting(s, d, m, beg, i + 1, r, pieces)
    ensures s[i] == d && r > 1 ==> Splitting(s, d, m, i + 1, i + 1, r - 1, pieces + Piece(s[beg..i]))
  {
    if s[i] != d || r <= 1 {
      assert s[beg..i + 1] == s[beg..i] + [s[i]];
    } else {
      SegmentEnds(s, d, beg, i, r, pieces);
    }
  }

  lemma SegmentEnds(s: string, d: char, beg: nat, i: nat, r: int, pieces: seq<string>)
    requires beg <= i < |s| && s[i] == d && d !in s[beg..i] && r > 1
    ensures pieces + Piece(s[beg..i]) + SplitMost(s[i + 1..], d, r - 1) == pieces + SplitMost(s[beg..], d, r)
    ensures d !in s[i + 1..i + 1]
  {
    assert s[beg..] == s[beg..i] + [d] + s[i + 1..];
    SplitMostCons(s[beg..i], d, s[i + 1..], r);
    AppendAssoc(pieces, Piece(s[beg..i]), SplitMost(s[i + 1..], d, r - 1));
  }

  lemma SplitMostCons(a: string, d: char, b: string, m: nat)
    requires d !in a && m > 1
    ensures SplitMost(a + [d] + b, d, m) == Piece(a) + SplitMost(b, d, m - 1)
  {
    var s := a + [d] + b;
    IndexOfUnique(a, d, b);
    assert s[..|a|] == a && s[|a| + 1..] == b;
  }

  lemma SplitEnd(s: string, d: char, m: nat, beg: nat, r: int, pieces: seq<string>)
    requires Splitting(s, d, m, beg, |s|, r, pieces)
    ensures pieces + Piece(s[beg..|s|]) == SplitMost(s, d, m)
    ensures s == [] ==> pieces == SplitMost(s, d, m)
  {
    assert s[beg..|s|] == s[beg..];
    if r > 1 {
      IndexOfNone(s[beg..], d);
    }
  }

  /** trim_copy */
  method TrimCopy(s: string) returns (r: string)
    ensures r == Trim(s)
  {
    var left, right := TrimRange(s, 0, |s|);
    assert s[0..|s|] == s;
    return if left < right then s[left..right] else "";
  }

  // ----- header lines

  /** start_with_case_ignore */
  method StartWithCaseIgnore(a: string, b: string) returns (r: bool)
    ensures r == StartsWithIgnoringCase(a, b)
  {
    if |a| < |b| { return false; }
    for i := 0 to |b|
      invariant forall k :: 0 <= k < i ==> ToLower(a[k]) == ToLower(b[k])
    {
      if ToLower(a[i]) != ToLower(b[i]) { return false; }
    }
    return true;
  }

  /** parse_header: whether the line is a header field. */
  method ParseHeader(line: string) returns (ok: bool)
    ensures ok == IsHeader(line)
  {
    var end := SkipBlanksBack(line);
    var s := line[..end];
    var p := 0;
    while p < end && s[p] != ':'
      invariant p <= end && ':' !in s[..p]
    {
      assert s[..p + 1] == s[..p] + [s[p]];
      p := p + 1;
    }
    ColonIs(s, p);
    if p == end { return false; }
    var keyEnd := p;
    p := SkipBlanks(s, p + 1);
    if p == end || keyEnd == 0 { return false; }
    var value := s[p..];
    if !EqualIgnoringCase(s[..keyEnd], "Location") {
      value := DecodeUrlLoop(value, false);
    }
    return !HasBreak(value);
  }

  lemma {:induction false} ColonIs(s: string, p: nat)
    requires p <= |s| && ':' !in s[..p] && (p < |s| ==> s[p] == ':')
    ensures IndexOf(s, ':') == p
    decreases p
  {
    if p > 0 {
      assert s[..p][0] == s[0] && s[..p][1..] == s[1..][..p - 1];
      ColonIs(s[1..], p - 1);
    }
  }

  method SkipBlanksBack(line: string) returns (end: nat)
    ensures end <= |line| && line[..end] == TrimRight(line)
  {
    end := |line|;
    assert line[..end] == line;
    while end > 0 && IsSpaceOrTab(line[end - 1])
      invariant end <= |line| && TrimRight(line[..end]) == TrimRight(line)
    {
      assert line[..end][..end - 1] == line[..end - 1];
      end := end - 1;
    }
  }

  method SkipBlanks(s: string, from: nat) returns (p: nat)
    requires from <= |s|
    ensures p <= |s| && s[p..] == TrimLeft(s[from..])
  {
    p := from;
    while p < |s| && IsSpaceOrTab(s[p])
      invariant p <= |s| && TrimLeft(s[p..]) == TrimLeft(s[from..])
    {
      assert s[p..][1..] == s[p + 1..];
      p := p + 1;
    }
  }
}
