/**
 Routes with path parameters (PathParamsMatcher in Httplib/httplib.h): compiling
 a pattern such as /users/:id/posts and matching a request path against it.
 */
module PathParams {
  import opened Prelude
  import opened HttpText

  const MARKER: string := "/:"

  // ----- what a pattern means

  /** The name that begins a string: all up to the next slash. */
  function NameOf(s: string): string { s[..IndexOf(s, '/')] }

  function BehindName(s: string): string { s[IndexOf(s, '/')..] }

  /** The parameters of the pattern: a name follows each slash with a colon. */
  function Names(p: string): seq<string>
    decreases |p|
  {
    if |p| < 2 then []
    else if p[0] == '/' && p[1] == ':' then [NameOf(p[2..])] + Names(BehindName(p[2..]))
    else Names(p[1..])
  }

  /** The pattern with the colons and names replaced by values. */
  function Subst(p: string, values: seq<string>): string
    requires |values| == |Names(p)|
    decreases |p|
  {
    if |p| < 2 then p
    else if p[0] == '/' && p[1] == ':' then ['/'] + values[0] + Subst(BehindName(p[2..]), values[1..])
    else [p[0]] + Subst(p[1..], values)
  }

  /** What follows the last parameter; the whole pattern, if it has none. */
  function Ending(p: string): string
    decreases |p|
  {
    if Names(p) == [] then p
    else if p[0] == '/' && p[1] == ':' then Ending(BehindName(p[2..]))
    else Ending(p[1..])
  }

  /** The paths that a pattern with these values stands for: one slash at the end
      does not matter where the pattern ends in a parameter, or in a parameter and
      a slash. */
  predicate StandsFor(p: string, values: seq<string>, path: string)
    requires |values| == |Names(p)|
  {
    var s := Subst(p, values);
    || path == s
    || (Names(p) != [] && Ending(p) == "" && path == s + "/")
    || (Names(p) != [] && Ending(p) == "/" && path + "/" == s)
  }

  // ----- compiling

  /** The fragments and names of what remains of the pattern.  Behind a parameter
      it begins with a slash that belongs to no fragment; skip is 1 there. */
  function Fragments(p: string, skip: nat): seq<string>
    requires skip <= 1
    decreases |p|
  {
    var m := Find(p, MARKER);
    if m == |p| then (if |p| > skip then [p[skip..]] else [])
    else [p[skip..m + 1]] + Fragments(BehindName(p[m + 2..]), 1)
  }

  function Distinct(names: seq<string>): bool {
    forall i, j :: 0 <= i < j < |names| ==> names[i] != names[j]
  }

  // ----- matching

  /** strncmp(s, t, |t|) == 0, for s at least as long as t: the comparison ends at a
      NUL. */
  function SameUpTo(s: string, t: string): bool
    requires |s| >= |t|
  {
    t == "" || (s[0] == t[0] && (s[0] == '\0' || SameUpTo(s[1..], t[1..])))
  }

  lemma {:induction false} SameWithoutNul(s: string, t: string)
    requires |s| >= |t| && '\0' !in t
    ensures SameUpTo(s, t) == (t <= s)
  {
    if t != "" {
      SameWithoutNul(s[1..], t[1..]);
      assert t == [t[0]] + t[1..] && s == [s[0]] + s[1..];
    }
  }

  /** The position of the first slash from position i on, |path| if there is none. */
  function Slash(path: string, i: nat): (r: nat)
    requires i <= |path|
    ensures i <= r <= |path|
  {
    i + IndexOf(path[i..], '/')
  }

  /** The values captured from q, what is left of the path; n names are left. Behind
      a value, skip is 1: the separator is passed over, even at the end of the path,
      where there is none. */
  function Capture(fragments: seq<string>, n: nat, q: string, skip: nat): Option<seq<string>>
    requires skip <= 1
    decreases |fragments|
  {
    if fragments == [] then (if skip >= |q| then Some([]) else None)
    else if skip + |fragments[0]| > |q| || !SameUpTo(q[skip..], fragments[0]) then None
    else
      var behind := q[skip + |fragments[0]|..];
      if n == 0 then Capture(fragments[1..], 0, behind, 0)
      else Prepend([NameOf(behind)], Capture(fragments[1..], n - 1, BehindName(behind), 1))
  }

  // ----- the object

  /** One turn of the constructor's loop: the fragment and the name up to the next
      separator, or nothing when there is no marker any more. */
  method NextParameter(pattern: string, last: nat) returns (found: bool, fragment: string, name: string, last': nat)
    requires last > 0 ==> last - 1 <= |pattern|
    ensures !found ==> Names(Left(pattern, last)) == []
    ensures found ==> last < last' <= |pattern| + 1
    ensures found ==>
      && Names(Left(pattern, last)) == [name] + Names(Left(pattern, last'))
      && Fragments(Left(pattern, last), Skip(last)) == [fragment] + Fragments(Left(pattern, last'), 1)
    ensures !found ==>
      Fragments(Left(pattern, last), Skip(last)) == if last < |pattern| then [pattern[last..]] else []
  {
    var from := if last == 0 then 0 else last - 1;
    var left := pattern[from..];
    var m := Find(left, MARKER);
    if m == |left| {
      NothingLeft(pattern, last, left);
      return false, "", "", last;
    }
    MarkerAt(left, m);
    fragment := left[Skip(last)..m + 1];
    name := NameOf(left[m + 2..]);
    last' := from + m + 2 + |name| + 1;
    OneLeft(pattern, last, left, m, name, last');
    return true, fragment, name, last';
  }

  lemma NothingLeft(pattern: string, last: nat, left: string)
    requires last > 0 ==> last - 1 <= |pattern|
    requires left == Left(pattern, last) && Find(left, MARKER) == |left|
    ensures Names(left) == []
    ensures Fragments(left, Skip(last)) == if last < |pattern| then [pattern[last..]] else []
  {
    LastFragment(left, Skip(last));
    assert last < |pattern| ==> left[Skip(last)..] == pattern[last..];
  }

  lemma OneLeft(pattern: string, last: nat, left: string, m: nat, name: string, last': nat)
    requires last > 0 ==> last - 1 <= |pattern|
    requires left == Left(pattern, last) && Find(left, MARKER) == m && m + 2 <= |left|
    requires name == NameOf(left[m + 2..])
    requires last' == |pattern| - |left| + m + 2 + |name| + 1
    ensures last < last' <= |pattern| + 1
    ensures Names(left) == [name] + Names(Left(pattern, last'))
    ensures Fragments(left, Skip(last)) == [left[Skip(last)..m + 1]] + Fragments(Left(pattern, last'), 1)
  {
    ParameterOf(left, Skip(last), m);
    BehindPosition(pattern, left, m, last');
    assert Left(pattern, last') == BehindName(left[m + 2..]);
  }

  lemma LastFragment(left: string, skip: nat)
    requires skip <= 1 && Find(left, MARKER) == |left|
    ensures Names(left) == [] && Fragments(left, skip) == if |left| > skip then [left[skip..]] else []
  {
    NamesNone(left);
  }

  lemma ParameterOf(left: string, skip: nat, m: nat)
    requires skip <= 1 && Find(left, MARKER) == m < |left|
    ensures m + 2 <= |left|
    ensures Names(left) == [NameOf(left[m + 2..])] + Names(BehindName(left[m + 2..]))
    ensures Fragments(left, skip) == [left[skip..m + 1]] + Fragments(BehindName(left[m + 2..]), 1)
  {
    NamesAtMarker(left);
    FragmentsAtMarker(left, skip);
    HeadAndTail(Fragments(left, skip));
  }

  /** The constructor's loop; not ok where it throws. */
  method CompilePattern(pattern: string) returns (ok: bool, fragments: seq<string>, names: seq<string>)
    ensures ok <==> Distinct(Names(pattern))
    ensures ok ==> names == Names(pattern) && fragments == Fragments(pattern, 0)
  {
    fragments, names := [], [];
    var last: nat := 0;
    while true
      invariant last > 0 ==> last - 1 <= |pattern|
      invariant names + Names(Left(pattern, last)) == Names(pattern)
      invariant fragments + Fragments(Left(pattern, last), Skip(last)) == Fragments(pattern, 0)
      invariant Distinct(names)
      decreases |pattern| + 1 - last
    {
      var found, fragment, name, next := NextParameter(pattern, last);
      if !found { break; }
      AppendAssoc(names, [name], Names(Left(pattern, next)));
      AppendAssoc(fragments, [fragment], Fragments(Left(pattern, next), 1));
      if name in names {
        NotDistinct(names, name, Names(pattern));
        return false, fragments, names;
      }
      StillDistinct(names, name);
      fragments, names, last := fragments + [fragment], names + [name], next;
    }
    if last < |pattern| {
      fragments := fragments + [pattern[last..]];
    }
    return true, fragments, names;
  }

  class PathParamsMatcher {
    var staticFragments: seq<string>
    var paramNames: seq<string>
    var unique: bool  // false where the constructor throws

    /** The constructor: fragments and names, or a refusal when a name occurs twice. */
    constructor (pattern: string)
      ensures unique <==> Distinct(Names(pattern))
      ensures unique ==> paramNames == Names(pattern) && staticFragments == Fragments(pattern, 0)
    {
      var ok, fragments, names := CompilePattern(pattern);
      unique, staticFragments, paramNames := ok, fragments, names;
    }

    /** match: the captured values by name. */
    method Match(path: string) returns (ok: bool, params: map<string, string>)
      requires Distinct(paramNames)
      ensures ok <==> Capture(staticFragments, |paramNames|, path, 0).Some?
      ensures ok ==> Binds(params, paramNames, Capture(staticFragments, |paramNames|, path, 0).value)
    {
      ok, params := MatchFragments(staticFragments, paramNames, path);
    }
  }

  /** string::find, of the separator. */
  method FindSlash(path: string, from: nat) returns (pos: nat)
    requires from <= |path|
    ensures pos == Slash(path, from)
  {
    pos := from;
    while pos < |path| && path[pos] != '/'
      invariant from <= pos <= |path| && Slash(path, pos) == Slash(path, from)
    {
      assert path[pos..][1..] == path[pos + 1..];
      pos := pos + 1;
    }
  }

  /** One turn of the loop of match, at position start; n names are left. What is
      left of the path begins at `base`. */
  method MatchFragment(fragments: seq<string>, n: nat, path: string, start: nat, ghost base: nat, ghost skip: nat)
    returns (ok: bool, value: string, next: nat, ghost base': nat, ghost q': string)
    requires fragments != [] && base <= |path| && skip <= 1 && start == base + skip
    ensures base' <= |path| && next == base' + (if n == 0 then 0 else 1) && q' == path[base'..]
    ensures Capture(fragments, n, path[base..], skip) ==
      if !ok then None
      else if n == 0 then Capture(fragments[1..], 0, q', 0)
      else Prepend([value], Capture(fragments[1..], n - 1, q', 1))
  {
    base', next, q' := 0, if n == 0 then 0 else 1, path[0..];
    var end := start + |fragments[0]|;
    if end > |path| {
      TooShort(fragments, n, path[base..], skip);
      return false, "", next, base', q';
    }
    if !SameUpTo(path[start..], fragments[0]) {
      CaptureTurn(fragments, n, path, start, base, skip, end);
      return false, "", next, base', q';
    }
    if n == 0 {
      CaptureTurn(fragments, n, path, start, base, skip, end);
      return true, "", end, end, path[end..];
    }
    var sep := FindSlash(path, end);
    ValueTurn(fragments, n, path, start, base, skip, end, sep);
    return true, path[end..sep], sep + 1, sep, path[sep..];
  }

  lemma TooShort(fragments: seq<string>, n: nat, q: string, skip: nat)
    requires fragments != [] && skip <= 1 && skip + |fragments[0]| > |q|
    ensures Capture(fragments, n, q, skip) == None
  {
  }

  lemma ValueTurn(fragments: seq<string>, n: nat, path: string, start: nat, base: nat, skip: nat, next: nat, sep: nat)
    requires fragments != [] && n > 0 && skip <= 1 && start == base + skip && next == start + |fragments[0]| <= |path|
    requires SameUpTo(path[start..], fragments[0]) && sep == Slash(path, next)
    ensures Capture(fragments, n, path[base..], skip)
         == Prepend([path[next..sep]], Capture(fragments[1..], n - 1, path[sep..], 1))
  {
    CaptureTurn(fragments, n, path, start, base, skip, next);
    NameCut(path, next, sep);
  }

  lemma CaptureTurn(fragments: seq<string>, n: nat, path: string, start: nat, base: nat, skip: nat, next: nat)
    requires fragments != [] && skip <= 1 && start == base + skip && next == start + |fragments[0]| <= |path|
    ensures Capture(fragments, n, path[base..], skip) ==
      if !SameUpTo(path[start..], fragments[0]) then None
      else if n == 0 then Capture(fragments[1..], 0, path[next..], 0)
      else Prepend([NameOf(path[next..])], Capture(fragments[1..], n - 1, BehindName(path[next..]), 1))
  {
    Slices(path, base, skip, skip);
    Slices(path, base, next - base, next - base);
    CaptureIs(fragments, n, path[base..], skip, path[start..], path[next..]);
  }

  lemma CaptureIs(fragments: seq<string>, n: nat, q: string, skip: nat, here: string, behind: string)
    requires fragments != [] && skip <= 1 && skip + |fragments[0]| <= |q|
    requires here == q[skip..] && behind == q[skip + |fragments[0]|..]
    ensures Capture(fragments, n, q, skip) ==
      if !SameUpTo(here, fragments[0]) then None
      else if n == 0 then Capture(fragments[1..], 0, behind, 0)
      else Prepend([NameOf(behind)], Capture(fragments[1..], n - 1, BehindName(behind), 1))
  {
  }

  /** The loop of match. */
  method MatchFragments(fragments: seq<string>, names: seq<string>, path: string)
    returns (ok: bool, params: map<string, string>)
    requires Distinct(names)
    ensures ok <==> Capture(fragments, |names|, path, 0).Some?
    ensures ok ==> Binds(params, names, Capture(fragments, |names|, path, 0).value)
  {
    params := map[];
    var start: nat := 0;
    ghost var base: nat, captured: seq<string>, rest, q, skip: nat := 0, [], fragments, path, 0;
    ghost var all := Capture(fragments, |names|, path, 0);
    var n := |names|;
    assert fragments[0..] == fragments && path[0..] == path;
    PrependNothing(all);
    for i := 0 to |fragments|
      invariant n == if i < |names| then |names| - i else 0
      invariant Binds(params, names, captured) && n + |captured| == |names|
      invariant rest == fragments[i..]
      invariant base <= |path| && q == path[base..] && skip <= 1 && start == base + skip
      invariant Matching(all, captured, rest, n, q, skip)
    {
      var value, next;
      ghost var base', q';
      ok, value, next, base', q' := MatchFragment(fragments[i..], n, path, start, base, skip);
      MatchingTurn(all, captured, rest, n, q, skip, value, q');
      if !ok { return false, map[]; }
      start, base, q, rest := next, base', q', rest[1..];
      assert rest == fragments[i + 1..];
      skip := if n == 0 then 0 else 1;
      if i < |names| {
        BindsMore(params, names, captured, value);
        captured := captured + [value];
        params := params[names[i] := value];
        n := n - 1;
      }
    }
    ok := start >= |path|;
    MatchingEnd(all, captured, rest, n, q, skip);
  }

  /** The values captured so far, and the way on. */
  ghost predicate Matching(all: Option<seq<string>>, captured: seq<string>,
      rest: seq<string>, n: nat, q: string, skip: nat)
    requires skip <= 1
  {
    all == Prepend(captured, Capture(rest, n, q, skip))
  }

  lemma MatchingTurn(all: Option<seq<string>>, captured: seq<string>,
      rest: seq<string>, n: nat, q: string, skip: nat, value: string, q': string)
    requires skip <= 1 && rest != [] && Matching(all, captured, rest, n, q, skip)
    ensures Capture(rest, n, q, skip) == None ==> all == None
    ensures n == 0 && Capture(rest, 0, q, skip) == Capture(rest[1..], 0, q', 0) ==> Matching(all, captured, rest[1..], 0, q', 0)
    ensures n > 0 && Capture(rest, n, q, skip) == Prepend([value], Capture(rest[1..], n - 1, q', 1))
      ==> Matching(all, captured + [value], rest[1..], n - 1, q', 1)
  {
    if n > 0 {
      PrependTwice(captured, value, Capture(rest[1..], n - 1, q', 1));
    }
  }

  lemma MatchingEnd(all: Option<seq<string>>, captured: seq<string>,
      rest: seq<string>, n: nat, q: string, skip: nat)
    requires skip <= 1 && rest == [] && Matching(all, captured, rest, n, q, skip)
    ensures all == if skip >= |q| then Some(captured) else None
  {
    assert captured + [] == captured;
  }

  /** The map binds the first names to the values, and no other name. */
  ghost predicate Binds(params: map<string, string>, names: seq<string>, values: seq<string>) {
    && |values| <= |names|
    && (forall i :: 0 <= i < |values| ==> names[i] in params && params[names[i]] == values[i])
    && (forall name :: name in params ==> exists i :: 0 <= i < |values| && names[i] == name)
  }

  lemma BindsMore(params: map<string, string>, names: seq<string>, values: seq<string>, value: string)
    requires Distinct(names) && Binds(params, names, values) && |values| < |names|
    ensures Binds(params[names[|values|] := value], names, values + [value])
  {
  }

  function Skip(last: nat): nat { if last == 0 then 0 else 1 }

  lemma HeadAndTail(s: seq<string>)
    requires s != []
    ensures s == [s[0]] + s[1..]
  {
  }

  lemma BehindPosition(pattern: string, left: string, m: nat, last: nat)
    requires |left| <= |pattern| && left == pattern[|pattern| - |left|..] && m + 2 <= |left|
    requires last == |pattern| - |left| + m + 2 + |NameOf(left[m + 2..])| + 1
    ensures last - 1 <= |pattern| && Left(pattern, last) == BehindName(left[m + 2..])
  {
  }

  lemma NotDistinct(names: seq<string>, name: string, all: seq<string>)
    requires name in names && names + [name] <= all
    ensures !Distinct(all)
  {
    var i :| 0 <= i < |names| && names[i] == name;
    assert all[i] == (names + [name])[i] && all[|names|] == (names + [name])[|names|];
  }

  lemma StillDistinct(names: seq<string>, name: string)
    requires Distinct(names) && name !in names
    ensures Distinct(names + [name])
  {
  }

  /** The part of the pattern that the search for the next marker looks at. */
  function Left(pattern: string, last: nat): string
    requires last == 0 || last - 1 <= |pattern|
  {
    pattern[if last == 0 then 0 else last - 1..]
  }

  function Prepend(front: seq<string>, r: Option<seq<string>>): Option<seq<string>> {
    match r
    case None => None
    case Some(values) => Some(front + values)
  }

  lemma PrependNothing(r: Option<seq<string>>)
    ensures Prepend([], r) == r
  {
    if r.Some? {
      assert [] + r.value == r.value;
    }
  }

  lemma PrependTwice(front: seq<string>, value: string, r: Option<seq<string>>)
    ensures Prepend(front, Prepend([value], r)) == Prepend(front + [value], r)
  {
    if r.Some? {
      assert front + ([value] + r.value) == front + [value] + r.value;
    }
  }

  // ----- the markers of a pattern

  lemma MarkerAt(p: string, i: nat)
    ensures At(p, MARKER, i) <==> i + 1 < |p| && p[i] == '/' && p[i + 1] == ':'
  {
  }

  lemma {:induction false} NamesNone(p: string)
    ensures Find(p, MARKER) == |p| <==> Names(p) == []
    ensures Names(p) == [] ==> Subst(p, []) == p && Ending(p) == p
    decreases |p|
  {
    MarkerAt(p, 0);
    if |p| >= 2 && !(p[0] == '/' && p[1] == ':') {
      NamesNone(p[1..]);
      FindDrop(p, MARKER, 1);
      assert p == [p[0]] + p[1..];
    }
  }

  /** At the first marker: the name, and what goes on behind it. */
  lemma {:induction false} NamesAtMarker(p: string)
    requires Find(p, MARKER) < |p|
    ensures var m := Find(p, MARKER);
      && m + 2 <= |p| && p[m] == '/' && p[m + 1] == ':'
      && Names(p) == [NameOf(p[m + 2..])] + Names(BehindName(p[m + 2..]))
      && Ending(p) == Ending(BehindName(p[m + 2..]))
    decreases |p|
  {
    MarkerAt(p, 0);
    MarkerAt(p, Find(p, MARKER));
    if Find(p, MARKER) > 0 {
      FindDrop(p, MARKER, 1);
      NamesAtMarker(p[1..]);
      assert p[1..][Find(p, MARKER) + 1..] == p[Find(p, MARKER) + 2..];
    }
  }

  /** The text up to the marker, then the value, then the rest. */
  predicate SubstSplits(p: string, values: seq<string>, m: nat)
    requires |values| == |Names(p)|
  {
    && m + 2 <= |p| && values != [] && |values| - 1 == |Names(BehindName(p[m + 2..]))|
    && Subst(p, values) == p[..m + 1] + values[0] + Subst(BehindName(p[m + 2..]), values[1..])
  }

  lemma {:induction false} SubstAtMarker(p: string, values: seq<string>)
    requires Find(p, MARKER) < |p| && |values| == |Names(p)|
    ensures SubstSplits(p, values, Find(p, MARKER))
    decreases |p|
  {
    var m := Find(p, MARKER);
    if m > 0 {
      MarkerLater(p);
      SubstAtMarker(p[1..], values);
      SubstLater(p, values, m);
    } else {
      SubstNow(p, values);
    }
  }

  lemma MarkerLater(p: string)
    requires 0 < Find(p, MARKER) < |p|
    ensures |p| >= 2 && !(p[0] == '/' && p[1] == ':')
    ensures Find(p[1..], MARKER) == Find(p, MARKER) - 1 && Names(p[1..]) == Names(p)
  {
    MarkerAt(p, 0);
    MarkerAt(p, Find(p, MARKER));
    FindDrop(p, MARKER, 1);
  }

  lemma SubstNow(p: string, values: seq<string>)
    requires Find(p, MARKER) == 0 < |p| && |values| == |Names(p)|
    ensures SubstSplits(p, values, 0)
  {
    NamesAtMarker(p);
    assert p[..1] == ['/'];
  }

  lemma SubstLater(p: string, values: seq<string>, m: nat)
    requires 0 < m < |p| && |values| == |Names(p)| && !(p[0] == '/' && p[1] == ':')
    requires SubstSplits(p[1..], values, m - 1)
    ensures SubstSplits(p, values, m)
  {
    var t := p[1..];
    assert t[m - 1 + 2..] == p[m + 2..] && t[..m - 1 + 1] == p[1..m + 1];
    Regroup4([p[0]], p[1..m + 1], values[0], Subst(BehindName(p[m + 2..]), values[1..]));
    assert [p[0]] + p[1..m + 1] == p[..m + 1];
  }

  lemma Regroup4(a: string, b: string, c: string, d: string)
    ensures a + (b + c + d) == a + b + c + d
  {
  }

  // ----- the law

  /** What remains of a pattern or of a path behind a parameter. */
  predicate FromSlash(s: string) { s == "" || s[0] == '/' }

  predicate SlashFree(values: seq<string>) {
    forall i :: 0 <= i < |values| ==> '/' !in values[i]
  }

  lemma BehindIsFromSlash(s: string)
    ensures FromSlash(BehindName(s)) && '/' !in NameOf(s) && s == NameOf(s) + BehindName(s)
  {
  }

  lemma SubstFromSlash(p: string, values: seq<string>)
    requires FromSlash(p) && |values| == |Names(p)|
    ensures FromSlash(Subst(p, values)) && (Ending(p) == "/" ==> Subst(p, values) != "")
    ensures p != "" ==> Subst(p, values) != ""
  {
  }

  /** A value in front of something from a slash: how it is captured. */
  lemma CaptureOne(v: string, rest: string)
    requires '/' !in v && FromSlash(rest)
    ensures NameOf(v + rest) == v && BehindName(v + rest) == rest
  {
    if rest == "" {
      assert v + rest == v;
      IndexOfNone(v, '/');
    } else {
      assert v + rest == v + ['/'] + rest[1..];
      IndexOfUnique(v, '/', rest[1..]);
    }
  }

  /** The values that the pattern p captures on what remains of the path. */
  function Captured(p: string, skip: nat, q: string): Option<seq<string>>
    requires skip <= 1
  {
    Capture(Fragments(p, skip), |Names(p)|, q, skip)
  }

  lemma Slices(s: string, k: nat, i: nat, j: nat)
    requires k <= |s| && i <= j <= |s| - k
    ensures s[k..][i..j] == s[k + i..k + j] && s[k..][i..] == s[k + i..]
  {
  }

  /** One parameter: the fragment up to the marker must match, the value goes up to
      the next slash, and the rest of the path must match the rest of the pattern. */
  lemma CaptureStep(p: string, skip: nat, q: string)
    requires skip <= 1 && Find(p, MARKER) < |p| && '\0' !in p
    requires skip == 1 ==> FromSlash(p) && FromSlash(q)
    ensures var m := Find(p, MARKER);
      && m + 2 <= |p|
      && Captured(p, skip, q) ==
           if |q| < m + 1 || q[..m + 1] != p[..m + 1] then None
           else Prepend([NameOf(q[m + 1..])], Captured(BehindName(p[m + 2..]), 1, BehindName(q[m + 1..])))
  {
    var m, fragments := Find(p, MARKER), Fragments(p, skip);
    NamesAtMarker(p);
    FragmentsAtMarker(p, skip);
    assert |fragments[0]| == m + 1 - skip;
    if |q| < m + 1 {
      TooShort(fragments, |Names(p)|, q, skip);
    } else {
      FragmentMatches(p, skip, m + 1, q);
      CaptureIs(fragments, |Names(p)|, q, skip, q[skip..], q[m + 1..]);
    }
  }

  lemma NameCut(q: string, begin: nat, sep: nat)
    requires begin <= |q| && sep == Slash(q, begin)
    ensures NameOf(q[begin..]) == q[begin..sep] && BehindName(q[begin..]) == q[sep..]
  {
    Slices(q, begin, 0, sep - begin);
    Slices(q, begin, sep - begin, sep - begin);
  }

  lemma FragmentsAtMarker(p: string, skip: nat)
    requires skip <= 1 && Find(p, MARKER) < |p|
    ensures var m := Find(p, MARKER);
      && m + 2 <= |p|
      && Fragments(p, skip) != [] && Fragments(p, skip)[0] == p[skip..m + 1]
      && Fragments(p, skip)[1..] == Fragments(BehindName(p[m + 2..]), 1)
  {
  }

  /** A fragment matches if and only if the path begins like the pattern. */
  lemma FragmentMatches(p: string, skip: nat, n: nat, q: string)
    requires skip <= 1 && skip <= n <= |p| && n <= |q| && '\0' !in p
    requires skip == 1 ==> FromSlash(p) && FromSlash(q)
    ensures SameUpTo(q[skip..], p[skip..n]) <==> p[..n] == q[..n]
  {
    var fragment := p[skip..n];
    SameWithoutNul(q[skip..], fragment);
    assert q[skip..][..|fragment|] == q[skip..n];
    SameFront(p, q, skip, n);
  }

  lemma SameFront(p: string, q: string, skip: nat, n: nat)
    requires skip <= 1 && skip <= n <= |p| && n <= |q|
    requires skip == 1 ==> FromSlash(p) && FromSlash(q)
    ensures p[skip..n] == q[skip..n] <==> p[..n] == q[..n]
  {
  }

  /** A pattern without parameters, from a slash on. */
  lemma CaptureEnd(p: string, skip: nat, q: string)
    requires skip <= 1 && Find(p, MARKER) == |p| && '\0' !in p
    requires skip == 1 ==> FromSlash(p) && FromSlash(q)
    ensures Captured(p, skip, q) ==
      if p == q || (skip == 1 && |p| <= 1 && |q| <= 1) then Some([]) else None
  {
    NamesNone(p);
    if |p| > skip {
      var fragment := p[skip..];
      assert Fragments(p, skip) == [fragment];
      if |q| >= |p| {
        FragmentMatches(p, skip, |p|, q);
        assert p[skip..|p|] == fragment;
        assert Capture([], 0, q[|p|..], 0) == if |p| >= |q| then Some([]) else None;
        assert [fragment][1..] == [];
        assert p[..|p|] == p && q[..|q|] == q;
      }
    }
  }

  /** The paths that what remains of a pattern stands for. */
  predicate StandsForRest(p: string, values: seq<string>, q: string)
    requires |values| == |Names(p)|
  {
    SameButForSlash(Subst(p, values), Ending(p), q)
  }

  lemma {:induction false} MatchRest(p: string, q: string, values: seq<string>)
    requires FromSlash(p) && FromSlash(q) && '\0' !in p
    ensures Captured(p, 1, q) == Some(values) <==>
      |values| == |Names(p)| && SlashFree(values) && StandsForRest(p, values, q)
    decreases |p|
  {
    var m := Find(p, MARKER);
    if m == |p| {
      CaptureEnd(p, 1, q);
      NamesNone(p);
      assert values == [] ==> (StandsForRest(p, values, q) <==> p == q || (|p| <= 1 && |q| <= 1));
    } else {
      MatchParameter(p, 1, q, values);
    }
  }

  /** There is a value for the parameter at the marker, and one for each behind it. */
  predicate ValuesAtMarker(p: string, values: seq<string>, m: nat) {
    m + 2 <= |p| && values != [] && |values| - 1 == |Names(BehindName(p[m + 2..]))|
  }

  /** The path begins with the text before the marker and the value, and goes on with
      what the rest of the pattern stands for. */
  predicate StandsBehind(p: string, values: seq<string>, m: nat, q: string)
    requires ValuesAtMarker(p, values, m)
  {
    |q| >= m + 1 && q[..m + 1] == p[..m + 1] && NameOf(q[m + 1..]) == values[0]
    && StandsForRest(BehindName(p[m + 2..]), values[1..], BehindName(q[m + 1..]))
  }

  /** At a parameter, a pattern stands for the paths that begin with its text and a
      value and go on with what the rest of the pattern stands for. */
  lemma StandsAtMarker(p: string, q: string, values: seq<string>)
    requires Find(p, MARKER) < |p| && |values| == |Names(p)| && SlashFree(values)
    ensures ValuesAtMarker(p, values, Find(p, MARKER))
    ensures StandsForRest(p, values, q) <==> StandsBehind(p, values, Find(p, MARKER), q)
  {
    var m := Find(p, MARKER);
    SubstAtMarker(p, values);
    NamesAtMarker(p);
    var rest := BehindName(p[m + 2..]);
    BehindIsFromSlash(p[m + 2..]);
    SubstFromSlash(rest, values[1..]);
    assert '/' !in values[0];
    Stands(p[..m + 1], values[0], Subst(rest, values[1..]), Ending(p), q);
  }

  /** path is s, but for a slash at its end that the ending may leave open. */
  predicate SameButForSlash(s: string, ending: string, q: string) {
    q == s || (ending == "" && q == s + "/") || (ending == "/" && q + "/" == s)
  }

  lemma Stands(text: string, value: string, s: string, ending: string, q: string)
    requires '/' !in value && FromSlash(s) && (ending == "/" ==> s != "")
    ensures SameButForSlash(text + value + s, ending, q) <==>
      |q| >= |text| && q[..|text|] == text && NameOf(q[|text|..]) == value
      && SameButForSlash(s, ending, BehindName(q[|text|..]))
  {
    if SameButForSlash(text + value + s, ending, q) {
      StandsForward(text, value, s, ending, q);
    }
    if |q| >= |text| && q[..|text|] == text && NameOf(q[|text|..]) == value {
      StandsBack(text, value, s, ending, q);
    }
  }

  lemma StandsForward(text: string, value: string, s: string, ending: string, q: string)
    requires '/' !in value && FromSlash(s) && (ending == "/" ==> s != "")
    requires SameButForSlash(text + value + s, ending, q)
    ensures |q| >= |text| && q[..|text|] == text && NameOf(q[|text|..]) == value
    ensures SameButForSlash(s, ending, BehindName(q[|text|..]))
  {
    var front := text + value;
    var q' := if q == front + s then s else if ending == "" then s + "/" else s[..|s| - 1];
    assert q == front + q' by {
      if q == front + s {
      } else if ending == "" {
        assert front + s + "/" == front + (s + "/");
      } else {
        assert q == (front + s)[..|front + s| - 1];
      }
    }
    assert SameButForSlash(s, ending, q') && FromSlash(q') by {
      if q != front + s && ending == "/" {
        LastSlash(front, s, q);
      }
    }
    assert q == text + (value + q');
    CaptureOne(value, q');
  }

  lemma LastSlash(front: string, s: string, q: string)
    requires s != "" && q + "/" == front + s
    ensures s[..|s| - 1] + "/" == s
  {
    assert (q + "/")[|q|] == '/' == (front + s)[|front + s| - 1] == s[|s| - 1];
  }

  lemma StandsBack(text: string, value: string, s: string, ending: string, q: string)
    requires |q| >= |text| && q[..|text|] == text && NameOf(q[|text|..]) == value
    ensures SameButForSlash(s, ending, BehindName(q[|text|..])) ==> SameButForSlash(text + value + s, ending, q)
  {
  }

  lemma MatchParameter(p: string, skip: nat, q: string, values: seq<string>)
    requires skip <= 1 && Find(p, MARKER) < |p| && '\0' !in p
    requires skip == 1 ==> FromSlash(p) && FromSlash(q)
    ensures Captured(p, skip, q) == Some(values) <==>
      |values| == |Names(p)| && SlashFree(values) && StandsForRest(p, values, q)
    decreases |p|, 0
  {
    var m := Find(p, MARKER);
    NamesAtMarker(p);
    CaptureStep(p, skip, q);
    var rest := BehindName(p[m + 2..]);
    BehindIsFromSlash(p[m + 2..]);
    var matches := |q| >= m + 1 && q[..m + 1] == p[..m + 1];
    var q' := if matches then q[m + 1..] else "";
    BehindIsFromSlash(q');
    if values != [] {
      MatchRest(rest, BehindName(q'), values[1..]);
      PrependIs(NameOf(q'), Captured(rest, 1, BehindName(q')), values);
    }
    if |values| == |Names(p)| && SlashFree(values) {
      StandsAtMarker(p, q, values);
    }
    SlashFreeCons(values, NameOf(q'));
  }

  lemma PrependIs(value: string, r: Option<seq<string>>, values: seq<string>)
    requires values != []
    ensures Prepend([value], r) == Some(values) <==> value == values[0] && r == Some(values[1..])
  {
    assert values == [values[0]] + values[1..];
  }

  lemma SlashFreeCons(values: seq<string>, value: string)
    requires '/' !in value
    ensures values != [] && values[0] == value ==> (SlashFree(values) <==> SlashFree(values[1..]))
  {
  }

  /** The law of the routes: a path matches a pattern and yields these values if and
      only if there is one value without slashes for each parameter and the pattern
      with the values in their places is the path, up to one slash at the end where
      the pattern ends in a parameter. */
  lemma MatchIff(pattern: string, path: string, values: seq<string>)
    requires '\0' !in pattern
    ensures Captured(pattern, 0, path) == Some(values) <==>
      |values| == |Names(pattern)| && SlashFree(values) && StandsFor(pattern, values, path)
  {
    NamesNone(pattern);
    if Find(pattern, MARKER) == |pattern| {
      CaptureEnd(pattern, 0, path);
    } else {
      NamesAtMarker(pattern);
      MatchParameter(pattern, 0, path, values);
    }
  }

  // ----- patterns put together

  /** Text, and then a parameter of this name. */
  datatype Slot = Slot(text: string, name: string)

  /** The pattern: each text, a slash, a colon and the name, and then the ending. */
  function Build(slots: seq<Slot>, ending: string): string {
    if slots == [] then ending
    else slots[0].text + ['/', ':'] + slots[0].name + Build(slots[1..], ending)
  }

  /** The path that is meant: each text, a slash and the value, and then the ending. */
  function Filled(slots: seq<Slot>, values: seq<string>, ending: string): string
    requires |values| == |slots|
  {
    if slots == [] then ending
    else slots[0].text + ['/'] + values[0] + Filled(slots[1..], values[1..], ending)
  }

  /** There is no slash with a colon behind it. */
  predicate Plain(text: string) { forall i :: 0 <= i < |text| - 1 ==> !(text[i] == '/' && text[i + 1] == ':') }

  /** Texts without markers, names without slashes; what is behind a name begins with a
      slash. */
  predicate SlotsOk(slots: seq<Slot>, ending: string) {
    && Plain(ending) && (slots != [] ==> FromSlash(ending))
    && (forall i :: 0 <= i < |slots| ==> Plain(slots[i].text) && '/' !in slots[i].name)
    && (forall i :: 1 <= i < |slots| ==> FromSlash(slots[i].text))
  }

  function SlotNames(slots: seq<Slot>): seq<string> {
    if slots == [] then [] else [slots[0].name] + SlotNames(slots[1..])
  }

  lemma PlainHasNone(text: string)
    requires Plain(text)
    ensures Find(text, MARKER) == |text|
  {
    forall i | 0 <= i < |text| ensures !At(text, MARKER, i) {
      MarkerAt(text, i);
    }
  }

  lemma FirstMarker(text: string, rest: string)
    requires Plain(text)
    ensures Find(text + ['/', ':'] + rest, MARKER) == |text|
  {
    var p := text + ['/', ':'] + rest;
    forall i | 0 <= i < |text| ensures !At(p, MARKER, i) {
      MarkerAt(p, i);
    }
    MarkerAt(p, |text|);
    FindIs(p, MARKER, |text|);
  }

  lemma NameEnds(name: string, rest: string)
    requires '/' !in name && FromSlash(rest)
    ensures NameOf(name + rest) == name && BehindName(name + rest) == rest
  {
    if rest == "" {
      assert name + rest == name;
      IndexOfNone(name, '/');
    } else {
      assert name + rest == name + ['/'] + rest[1..];
      IndexOfUnique(name, '/', rest[1..]);
    }
  }

  lemma BuildFromSlash(slots: seq<Slot>, ending: string)
    requires SlotsOk(slots, ending) && slots != []
    ensures SlotsOk(slots[1..], ending) && FromSlash(Build(slots[1..], ending))
  {
    if |slots| > 1 {
      assert slots[1..][0] == slots[1];
      assert FromSlash(slots[1].text);
    }
  }

  /** The parameters of a pattern that was put together are those of its slots. */
  lemma {:induction false} BuildMeans(slots: seq<Slot>, ending: string, values: seq<string>)
    requires SlotsOk(slots, ending) && |values| == |slots|
    ensures var p := Build(slots, ending);
      && Names(p) == SlotNames(slots) && |Names(p)| == |slots| && Ending(p) == ending
      && Subst(p, values) == Filled(slots, values, ending)
    decreases |slots|
  {
    var p := Build(slots, ending);
    if slots == [] {
      PlainHasNone(ending);
      NamesNone(ending);
    } else {
      var slot, rest := slots[0], Build(slots[1..], ending);
      assert p == slot.text + ['/', ':'] + (slot.name + rest);
      FirstMarker(slot.text, slot.name + rest);
      BuildFromSlash(slots, ending);
      NameEnds(slot.name, rest);
      assert p[|slot.text| + 2..] == slot.name + rest && p[..|slot.text| + 1] == slot.text + ['/'];
      NamesAtMarker(p);
      BuildMeans(slots[1..], ending, values[1..]);
      SubstAtMarker(p, values);
    }
  }

  /** The law of the routes for patterns that were put together. */
  lemma RouteLaw(slots: seq<Slot>, ending: string, path: string, values: seq<string>)
    requires SlotsOk(slots, ending) && '\0' !in Build(slots, ending)
    ensures Captured(Build(slots, ending), 0, path) == Some(values) <==>
      |values| == |slots| && SlashFree(values) &&
      var s := Filled(slots, values, ending);
      || path == s
      || (slots != [] && ending == "" && path == s + "/")
      || (slots != [] && ending == "/" && path + "/" == s)
  {
    var p := Build(slots, ending);
    MatchIff(p, path, values);
    BuildMeans(slots, ending, seq(|slots|, _ => ""));
    if |values| == |slots| {
      BuildMeans(slots, ending, values);
    }
  }

  /** strncmp looks no further than a NUL that both have. */
  lemma {:induction false} SameUpToMeans(s: string, t: string)
    requires |s| >= |t|
    ensures SameUpTo(s, t) <==> t <= s || exists k :: 0 <= k < |t| && t[k] == '\0' && s[..k + 1] == t[..k + 1]
  {
    if t != "" {
      SameUpToMeans(s[1..], t[1..]);
      SameCons(s, t);
    }
  }

  lemma SameCons(s: string, t: string)
    requires |s| >= |t| > 0
    ensures t <= s <==> s[0] == t[0] && t[1..] <= s[1..]
    ensures (exists k :: 0 <= k < |t| && t[k] == '\0' && s[..k + 1] == t[..k + 1]) <==>
      s[0] == t[0] && (t[0] == '\0'
        || exists k :: 0 <= k < |t[1..]| && t[1..][k] == '\0' && s[1..][..k + 1] == t[1..][..k + 1])
  {
    assert t == [t[0]] + t[1..] && s == [s[0]] + s[1..];
    forall k | 1 <= k < |t|
      ensures s[..k + 1] == t[..k + 1] <==> s[0] == t[0] && s[1..][..k] == t[1..][..k]
    {
      assert s[..k + 1] == [s[0]] + s[1..][..k] && t[..k + 1] == [t[0]] + t[1..][..k];
    }
    assert s[..1] == [s[0]] && t[..1] == [t[0]];
    if k :| 0 <= k < |t| && t[k] == '\0' && s[..k + 1] == t[..k + 1] {
      assert s[..k + 1][0] == s[0] && t[..k + 1][0] == t[0];
      if k > 0 { assert t[1..][k - 1] == '\0' && s[1..][..k - 1 + 1] == t[1..][..k - 1 + 1]; }
    }
    if k :| 0 <= k < |t[1..]| && t[1..][k] == '\0' && s[1..][..k + 1] == t[1..][..k + 1] {
      assert t[k + 1] == '\0';
      assert s[0] == t[0] ==> s[..k + 1 + 1] == t[..k + 1 + 1];
    }
  }
}
