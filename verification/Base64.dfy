/** Base64 (Httplib/httplib.h:2566-2592; RFC 4648 section 4). */
module Base64 {
  import opened Prelude

  type byte = b: int | 0 <= b < 0x100
  type sextet = d: int | 0 <= d < 64

  // ----- the standard

  /** The alphabet. */
  function Digit(d: sextet): char {
    if d < 26 then (d + 'A' as int) as char
    else if d < 52 then (d - 26 + 'a' as int) as char
    else if d < 62 then (d - 52 + '0' as int) as char
    else if d == 62 then '+' else '/'
  }

  const CAPITALS: string := "ABCDEFGHIJKLMNOPQRSTUVWXYZ"
  const SMALL: string := "abcdefghijklmnopqrstuvwxyz"
  const OTHERS: string := "0123456789+/"

  /** The digits are the characters of the table, in order. */
  lemma DigitMeans(d: sextet)
    ensures d < 26 ==> Digit(d) == CAPITALS[d]
    ensures 26 <= d < 52 ==> Digit(d) == SMALL[d - 26]
    ensures 52 <= d ==> Digit(d) == OTHERS[d - 52]
  {
  }

  function Value(c: char): (d: Option<sextet>)
    ensures d.Some? ==> Digit(d.value) == c
  {
    if 'A' <= c <= 'Z' then Some(c as int - 'A' as int)
    else if 'a' <= c <= 'z' then Some(c as int - 'a' as int + 26)
    else if '0' <= c <= '9' then Some(c as int - '0' as int + 52)
    else if c == '+' then Some(62) else if c == '/' then Some(63) else None
  }

  lemma DigitValue(d: sextet)
    ensures Value(Digit(d)) == Some(d) && Digit(d) != '='
  {
  }

  // The bits of three octets a, b and c, as four groups of six.

  function First(a: byte): sextet { a / 4 }
  function Second(a: byte, b: byte): sextet { a % 4 * 16 + b / 16 }
  function Third(b: byte, c: byte): sextet { b % 16 * 4 + c / 64 }
  function Fourth(c: byte): sextet { c % 64 }

  /** The groups are the bits of the octets in order, the high ones first. */
  lemma GroupsMean(a: byte, b: byte, c: byte)
    ensures 0x10000 * a + 0x100 * b + c == 0x40000 * First(a) + 0x1000 * Second(a, b) + 0x40 * Third(b, c) + Fourth(c)
  {
  }

  // The same bits, as three octets.

  function OctetA(u: sextet, v: sextet): byte { u * 4 + v / 16 }
  function OctetB(v: sextet, x: sextet): byte { v % 16 * 16 + x / 4 }
  function OctetC(x: sextet, y: sextet): byte { x % 4 * 64 + y }

  lemma OctetsBack(a: byte, b: byte, c: byte)
    ensures OctetA(First(a), Second(a, b)) == a
    ensures OctetB(Second(a, b), Third(b, c)) == b
    ensures OctetC(Third(b, c), Fourth(c)) == c
    ensures Second(a, 0) % 16 == 0 && Third(b, 0) % 4 == 0
  {
  }

  lemma SextetsBack(u: sextet, v: sextet, x: sextet, y: sextet)
    ensures First(OctetA(u, v)) == u
    ensures Second(OctetA(u, v), OctetB(v, x)) == v
    ensures Third(OctetB(v, x), OctetC(x, y)) == x
    ensures Fourth(OctetC(x, y)) == y
    ensures v % 16 == 0 ==> Second(OctetA(u, v), 0) == v
    ensures x % 4 == 0 ==> Third(OctetB(v, x), 0) == x
  {
  }

  /** One, two or three octets as four characters. */
  function Quantum(g: seq<byte>): (q: seq<char>)
    requires 1 <= |g| <= 3
    ensures |q| == 4
  {
    if |g| == 1 then [Digit(First(g[0])), Digit(Second(g[0], 0)), '=', '=']
    else if |g| == 2 then [Digit(First(g[0])), Digit(Second(g[0], g[1])), Digit(Third(g[1], 0)), '=']
    else [Digit(First(g[0])), Digit(Second(g[0], g[1])), Digit(Third(g[1], g[2])), Digit(Fourth(g[2]))]
  }

  function Encode(s: seq<byte>): seq<char> {
    if s == [] then []
    else if |s| <= 3 then Quantum(s)
    else Quantum(s[..3]) + Encode(s[3..])
  }

  /** The octets of four characters. None if they are not a quantum: a character
      outside the alphabet, padding elsewhere than at the end, or bits set that the
      padding leaves unused. */
  function DecodeQuantum(q: seq<char>): (g: Option<seq<byte>>)
    requires |q| == 4
    ensures g.Some? ==> 1 <= |g.value| <= 3
  {
    var u, v, x, y := Value(q[0]), Value(q[1]), Value(q[2]), Value(q[3]);
    if u.None? || v.None? then None
    else if x.None? then
      if q[2] == '=' && q[3] == '=' && v.value % 16 == 0 then Some([OctetA(u.value, v.value)]) else None
    else if y.None? then
      if q[3] == '=' && x.value % 4 == 0 then Some([OctetA(u.value, v.value), OctetB(v.value, x.value)]) else None
    else
      Some([OctetA(u.value, v.value), OctetB(v.value, x.value), OctetC(x.value, y.value)])
  }

  /** Only the last quantum may be padded. */
  function Decode(e: seq<char>): Option<seq<byte>> {
    if e == [] then Some([])
    else if |e| < 4 then None
    else
      var g := DecodeQuantum(e[..4]);
      if g.None? then None
      else if |e| == 4 then g
      else if |g.value| < 3 then None
      else
        var rest := Decode(e[4..]);
        if rest.None? then None else Some(g.value + rest.value)
  }

  /** Four characters for every three octets begun. */
  lemma {:induction false} EncodeLength(s: seq<byte>)
    ensures |Encode(s)| == 4 * ((|s| + 2) / 3)
  {
    if |s| > 3 {
      EncodeUnfold(s, s[..3], s[3..]);
      EncodeLength(s[3..]);
      QuantaBegun(|s|, |s[3..]|);
    }
  }

  lemma EncodeUnfold(s: seq<byte>, g: seq<byte>, rest: seq<byte>)
    requires |g| == 3 && rest != [] && s == g + rest
    ensures Encode(s) == Quantum(g) + Encode(rest)
  {
  }

  lemma QuantaBegun(n: nat, rest: nat)
    requires n == rest + 3
    ensures (n + 2) / 3 == (rest + 2) / 3 + 1
  {
  }

  /** The last p characters, and no others, are '='. */
  ghost predicate Padded(e: seq<char>, p: nat) {
    p <= |e| && forall k :: 0 <= k < |e| ==> (e[k] == '=' <==> k >= |e| - p)
  }

  /** As many '=' at the end as octets are missing to a multiple of three, and none
      elsewhere. */
  lemma {:induction false} EncodePadding(s: seq<byte>)
    ensures Padded(Encode(s), (3 - |s| % 3) % 3)
  {
    if s == [] {
      assert Encode(s) == [];
    } else if |s| <= 3 {
      QuantumPadding(s);
    } else {
      EncodePadding(s[3..]);
      QuantumPadding(s[..3]);
      PaddedTail(Quantum(s[..3]), Encode(s[3..]), (3 - |s| % 3) % 3);
    }
  }

  lemma QuantumPadding(g: seq<byte>)
    requires 1 <= |g| <= 3
    ensures Padded(Quantum(g), 3 - |g|)
  {
  }

  lemma PaddedTail(q: seq<char>, e: seq<char>, p: nat)
    requires Padded(q, 0) && Padded(e, p)
    ensures Padded(q + e, p)
  {
  }

  lemma QuantumRoundTrip(g: seq<byte>)
    requires 1 <= |g| <= 3
    ensures DecodeQuantum(Quantum(g)) == Some(g)
  {
    if |g| == 1 { QuantumOf(g, g[0], 0, 0); }
    else if |g| == 2 { QuantumOf(g, g[0], g[1], 0); }
    else { QuantumOf(g, g[0], g[1], g[2]); }
  }

  lemma QuantumOf(g: seq<byte>, a: byte, b: byte, c: byte)
    requires 1 <= |g| <= 3 && g == if |g| == 1 then [a] else if |g| == 2 then [a, b] else [a, b, c]
    requires (|g| < 2 ==> b == 0) && (|g| < 3 ==> c == 0)
    ensures DecodeQuantum(Quantum(g)) == Some(g)
  {
    OctetsBack(a, b, c);
    var u, v, x, y := First(a), Second(a, b), Third(b, c), Fourth(c);
    DigitsOf(g, a, b, c, u, v, x, y);
  }

  lemma DigitsOf(g: seq<byte>, a: byte, b: byte, c: byte, u: sextet, v: sextet, x: sextet, y: sextet)
    requires 1 <= |g| <= 3 && g == if |g| == 1 then [a] else if |g| == 2 then [a, b] else [a, b, c]
    requires Quantum(g) == if |g| == 1 then [Digit(u), Digit(v), '=', '=']
                           else if |g| == 2 then [Digit(u), Digit(v), Digit(x), '=']
                           else [Digit(u), Digit(v), Digit(x), Digit(y)]
    requires a == OctetA(u, v) && b == OctetB(v, x) && c == OctetC(x, y)
    requires (|g| < 2 ==> v % 16 == 0) && (|g| < 3 ==> x % 4 == 0)
    ensures DecodeQuantum(Quantum(g)) == Some(g)
  {
    DecodeDigits(u, v, x, y);
  }

  lemma DecodeDigits(u: sextet, v: sextet, x: sextet, y: sextet)
    ensures DecodeQuantum([Digit(u), Digit(v), Digit(x), Digit(y)])
            == Some([OctetA(u, v), OctetB(v, x), OctetC(x, y)])
    ensures x % 4 == 0 ==>
      DecodeQuantum([Digit(u), Digit(v), Digit(x), '=']) == Some([OctetA(u, v), OctetB(v, x)])
    ensures v % 16 == 0 ==> DecodeQuantum([Digit(u), Digit(v), '=', '=']) == Some([OctetA(u, v)])
  {
    DigitValue(u);
    DigitValue(v);
    DigitValue(x);
    DigitValue(y);
  }

  lemma QuantumOnly(q: seq<char>)
    requires |q| == 4 && DecodeQuantum(q).Some?
    ensures Quantum(DecodeQuantum(q).value) == q
  {
    var u, v := Value(q[0]).value, Value(q[1]).value;
    var x, y := Value(q[2]), Value(q[3]);
    SextetsBack(u, v, if x.Some? then x.value else 0, if y.Some? then y.value else 0);
    assert q == [q[0], q[1], q[2], q[3]];
  }

  /** The standard's decoder recovers every input from its encoding. */
  lemma {:induction false} DecodeEncode(s: seq<byte>)
    ensures Decode(Encode(s)) == Some(s)
    decreases |s|
  {
    if s == [] {
    } else if |s| <= 3 {
      QuantumRoundTrip(s);
      assert Quantum(s)[..4] == Quantum(s);
    } else {
      var q, e := Quantum(s[..3]), Encode(s[3..]);
      QuantumRoundTrip(s[..3]);
      DecodeEncode(s[3..]);
      EncodeLength(s[3..]);
      assert (q + e)[..4] == q && (q + e)[4..] == e;
      assert s[..3] + s[3..] == s;
    }
  }

  /** And it accepts nothing else. */
  lemma {:induction false} EncodeDecode(e: seq<char>)
    requires Decode(e).Some?
    ensures Encode(Decode(e).value) == e
    decreases |e|
  {
    if e != [] {
      var q := e[..4];
      QuantumOnly(q);
      assert e == q + e[4..];
      if |e| > 4 {
        var g, rest := DecodeQuantum(q).value, Decode(e[4..]).value;
        EncodeDecode(e[4..]);
        assert rest != [];
        assert (g + rest)[..3] == g && (g + rest)[3..] == rest;
      }
    }
  }

  // ----- the program

  /** A 32-bit int that has overflowed. */
  function Wrap(n: int): int { (n + 0x8000_0000) % 0x1_0000_0000 - 0x8000_0000 }

  function Power2(k: nat): (p: nat)
    ensures p > 0
  {
    if k == 0 then 1 else 2 * Power2(k - 1)
  }

  /** (val >> k) & 0x3F, where the shift keeps the sign. */
  function Sextet(val: int, k: nat): sextet {
    val / Power2(k) % 64
  }

  /** base64_encode */
  method Base64Encode(input: seq<byte>) returns (out: seq<char>)
    ensures out == Encode(input)
  {
    out := [];
    var val: int, valb := 0, -6;
    ghost var x, g: seq<byte> := [], [];
    for i := 0 to |input|
      invariant input[..i] == x + g && Coded(x, g, val, valb, out)
    {
      StepCoded(x, g, val, valb, out, input[i]);
      TakeNext(input, i, x, g);
      val, valb, out := PushByte(val, valb, out, input[i]);
      x, g := Closed(x, g, input[i]), Open(g, input[i]);
    }
    assert input[..|input|] == input;
    Finish(x, g, val, valb, out);
    ghost var digits := out + Completed(val, valb);
    if valb > -6 { out := out + [Digit(Sextet(Wrap(val * 0x100), valb + 8))]; }
    assert out == digits;
    out := PadToFour(out, |Encode(input)|);
  }

  /** What is written after the loop, before the padding. */
  function Completed(val: int, valb: int): seq<char>
    requires BitsLeft(valb)
  {
    if valb > -6 then [Digit(Sextet(Wrap(val * 0x100), valb + 8))] else []
  }

  /** The body of the loop over the input. */
  method PushByte(val0: int, valb0: int, out0: seq<char>, c: byte) returns (val: int, valb: int, out: seq<char>)
    requires BitsLeft(valb0)
    ensures (val, valb, out) == Pushed(val0, valb0, out0, c)
  {
    val := Wrap(Wrap(val0 * 0x100) + c);
    WrapTwice(val0 * 0x100, c);
    valb := valb0 + 8;
    out := out0;
    while valb >= 0
      invariant || (valb == valb0 + 8 && out == out0)
                || (valb == valb0 + 2 && out == out0 + [Digit(Sextet(val, valb0 + 8))])
                || (valb == valb0 - 4 == -6 && out == out0 + [Digit(Sextet(val, 6)), Digit(Sextet(val, 0))])
    {
      out := out + [Digit(Sextet(val, valb))];
      valb := valb - 6;
    }
  }

  predicate BitsLeft(valb: int) { valb == -6 || valb == -4 || valb == -2 }

  function Pushed(val: int, valb: int, out: seq<char>, c: byte): (int, int, seq<char>)
    requires BitsLeft(valb)
  {
    var v := Wrap(val * 0x100 + c);
    if valb == -2 then (v, -6, out + [Digit(Sextet(v, 6)), Digit(Sextet(v, 0))])
    else (v, valb + 2, out + [Digit(Sextet(v, valb + 8))])
  }

  lemma WrapTwice(a: int, c: int)
    ensures Wrap(Wrap(a) + c) == Wrap(a + c)
  {
  }

  method PadToFour(out0: seq<char>, ghost n: nat) returns (out: seq<char>)
    requires |out0| <= n < |out0| + 4 && n % 4 == 0
    ensures out == out0 + Repeat('=', n - |out0|)
  {
    out := out0;
    while |out| % 4 != 0
      invariant |out0| <= |out| <= n
      invariant out == out0 + Repeat('=', |out| - |out0|)
      decreases n - |out|
    {
      out := out + ['='];
    }
  }

  /** Where the encoder stands after x and g: the full quanta of x are written, and
      the digits that the one or two octets of g complete; the accumulator ends in
      the last of these, whatever has overflowed above. */
  ghost predicate Coded(x: seq<byte>, g: seq<byte>, val: int, valb: int, out: seq<char>) {
    && |x| % 3 == 0 && |g| <= 2 && valb == 2 * |g| - 6
    && (g != [] ==> val % 0x100 == g[|g| - 1])
    && out == Encode(x) + Started(g)
  }

  /** The digits that one or two octets complete. */
  function Started(g: seq<byte>): seq<char> {
    if |g| == 1 then [Digit(First(g[0]))]
    else if |g| == 2 then [Digit(First(g[0])), Digit(Second(g[0], g[1]))]
    else []
  }

  /** Digits cut out of the accumulator after it took in c; a is the octet before. */
  lemma CutDigits(val: int, a: byte, c: byte)
    requires val % 0x100 == a
    ensures var v := Wrap(val * 0x100 + c);
      && v % 0x100 == c && Sextet(v, 2) == First(c) && Sextet(v, 0) == Fourth(c)
      && Sextet(v, 4) == Second(a, c) && Sextet(v, 6) == Third(a, c)
  {
    var v := Wrap(val * 0x100 + c);
    var h := LowBits(val, a, c, v);
    DivModUnique(v, 0x100, 0x100 * h + a, c);
    assert Power2(2) == 4;
    assert Power2(4) == 16 by { assert Power2(3) == 8; }
    assert Power2(6) == 64 by { assert Power2(5) == 32; }
    Cut(v, 1, 0x400 * h + 4 * a + c / 64, c % 64, 0);
    Cut(v, 4, 0x100 * h + a, c / 4, c % 4);
    Cut(v, 16, 64 * h + a / 4, a % 4 * 16 + c / 16, c % 16);
    Cut(v, 64, 16 * h + a / 16, a % 16 * 4 + c / 64, c % 64);
  }

  /** Overflow does not reach the low bits. */
  lemma LowBits(val: int, a: byte, c: byte, v: int) returns (h: int)
    requires val % 0x100 == a && v == Wrap(val * 0x100 + c)
    ensures v == 0x10000 * h + a * 0x100 + c
  {
    var q := (val * 0x100 + c + 0x8000_0000) / 0x1_0000_0000;
    h := val / 0x100 - 0x10000 * q;
    assert val == 0x100 * (val / 0x100) + a;
    assert v == val * 0x100 + c - 0x1_0000_0000 * q;
  }

  lemma Cut(v: int, d: nat, high: int, mid: sextet, low: nat)
    requires low < d && v == d * (64 * high + mid) + low
    ensures v / d % 64 == mid
  {
    DivModUnique(v, d, 64 * high + mid, low);
    DivModUnique(64 * high + mid, 64, high, mid);
  }

  /** The octets of the full quanta, and those of the quantum begun, after one more. */
  function Closed(x: seq<byte>, g: seq<byte>, c: byte): seq<byte> { if |g| == 2 then x + g + [c] else x }
  function Open(g: seq<byte>, c: byte): seq<byte> { if |g| == 2 then [] else g + [c] }

  lemma TakeNext(input: seq<byte>, i: nat, x: seq<byte>, g: seq<byte>)
    requires i < |input| && input[..i] == x + g
    ensures input[..i + 1] == Closed(x, g, input[i]) + Open(g, input[i])
  {
    assert input[..i + 1] == input[..i] + [input[i]];
  }

  /** One more octet. */
  lemma StepCoded(x: seq<byte>, g: seq<byte>, val: int, valb: int, out: seq<char>, c: byte)
    requires Coded(x, g, val, valb, out)
    ensures BitsLeft(valb)
    ensures var n := Pushed(val, valb, out, c); Coded(Closed(x, g, c), Open(g, c), n.0, n.1, n.2)
  {
    if |g| == 2 { StepThird(x, g, val, valb, out, c); } else { StepOther(x, g, val, valb, out, c); }
  }

  lemma StepOther(x: seq<byte>, g: seq<byte>, val: int, valb: int, out: seq<char>, c: byte)
    requires Coded(x, g, val, valb, out) && |g| < 2
    ensures BitsLeft(valb)
    ensures var n := Pushed(val, valb, out, c); Coded(x, g + [c], n.0, n.1, n.2)
  {
    if |g| == 0 {
      CutDigits(val, val % 0x100, c);
      NextFirst(x, g, c);
    } else {
      CutDigits(val, g[0], c);
      NextSecond(x, g, c);
    }
  }

  lemma StepThird(x: seq<byte>, g: seq<byte>, val: int, valb: int, out: seq<char>, c: byte)
    requires Coded(x, g, val, valb, out) && |g| == 2
    ensures BitsLeft(valb)
    ensures var n := Pushed(val, valb, out, c); Coded(x + g + [c], [], n.0, n.1, n.2)
  {
    CutDigits(val, g[1], c);
    NextThird(x, g, c);
    Quanta(|x|, x + g + [c]);
  }

  lemma Quanta(n: nat, x: seq<byte>)
    requires n % 3 == 0 && |x| == n + 3
    ensures |x| % 3 == 0
  {
  }

  lemma NextFirst(x: seq<byte>, g: seq<byte>, c: byte)
    requires g == []
    ensures Encode(x) + Started(g) + [Digit(First(c))] == Encode(x) + Started(g + [c])
  {
  }

  lemma NextSecond(x: seq<byte>, g: seq<byte>, c: byte)
    requires |g| == 1
    ensures Encode(x) + Started(g) + [Digit(Second(g[0], c))] == Encode(x) + Started(g + [c])
  {
  }

  lemma NextThird(x: seq<byte>, g: seq<byte>, c: byte)
    requires |x| % 3 == 0 && |g| == 2
    ensures Encode(x) + Started(g) + [Digit(Third(g[1], c)), Digit(Fourth(c))]
         == Encode(x + g + [c]) + Started([])
  {
    assert x + g + [c] == x + [g[0], g[1], c];
    EncodeMore(x, [g[0], g[1], c], |x| / 3);
    StartedFull(Encode(x), First(g[0]), Second(g[0], g[1]), Third(g[1], c), Fourth(c));
  }

  lemma StartedFull(e: seq<char>, u: sextet, v: sextet, x: sextet, y: sextet)
    ensures (e + [Digit(u), Digit(v)]) + [Digit(x), Digit(y)] == e + [Digit(u), Digit(v), Digit(x), Digit(y)]
  {
  }

  /** What is encoded of a whole number of quanta stays when more follows. */
  lemma {:induction false} EncodeMore(x: seq<byte>, y: seq<byte>, quanta: nat)
    requires |x| == 3 * quanta
    ensures Encode(x + y) == Encode(x) + Encode(y)
    decreases quanta
  {
    if x == [] {
      assert x + y == y;
    } else if y == [] {
      assert x + y == x;
    } else if |x| == 3 {
      EncodeUnfold(x + y, x, y);
    } else {
      var g, rest := x[..3], x[3..];
      EncodeMore(rest, y, quanta - 1);
      EncodeUnfold(x, g, rest);
      PrependQuantum(x, y, g, rest);
    }
  }

  lemma PrependQuantum(x: seq<byte>, y: seq<byte>, g: seq<byte>, rest: seq<byte>)
    requires |g| == 3 && rest != [] && x == g + rest
    requires Encode(rest + y) == Encode(rest) + Encode(y) && Encode(x) == Quantum(g) + Encode(rest)
    ensures Encode(x + y) == Encode(x) + Encode(y)
  {
    AppendAssoc(g, rest, y);
    EncodeUnfold(x + y, g, rest + y);
    AppendAssoc(Quantum(g), Encode(rest), Encode(y));
  }

  lemma Finish(x: seq<byte>, g: seq<byte>, val: int, valb: int, out: seq<char>)
    requires Coded(x, g, val, valb, out)
    ensures BitsLeft(valb)
    ensures Padding(out + Completed(val, valb), Encode(x + g))
  {
    LastPending(x, g, val, valb, out);
    Joined(x, g);
    if |g| > 0 {
      FinishQuantum(Encode(x), g);
    } else {
      FinishFull(Encode(x));
    }
  }

  lemma FinishFull(e: seq<char>)
    requires |e| % 4 == 0
    ensures Padding(e + [] + [], e + [])
  {
  }

  lemma LastPending(x: seq<byte>, g: seq<byte>, val: int, valb: int, out: seq<char>)
    requires Coded(x, g, val, valb, out)
    ensures BitsLeft(valb) && |x| % 3 == 0 && |g| <= 2
    ensures Completed(val, valb) ==
      if |g| == 0 then [] else if |g| == 1 then [Digit(Second(g[0], 0))] else [Digit(Third(g[1], 0))]
  {
    if |g| > 0 { LastDigit(val, g[|g| - 1]); }
  }

  lemma Joined(x: seq<byte>, g: seq<byte>)
    requires |x| % 3 == 0
    ensures Encode(x + g) == Encode(x) + Encode(g) && |Encode(x)| % 4 == 0
  {
    EncodeMore(x, g, |x| / 3);
    EncodeLength(x);
    Fours(|Encode(x)|, (|x| + 2) / 3);
  }

  lemma Fours(n: nat, k: nat)
    requires n == 4 * k
    ensures n % 4 == 0
  {
  }

  lemma FinishQuantum(e: seq<char>, g: seq<byte>)
    requires |e| % 4 == 0 && 1 <= |g| <= 2
    ensures Padding(e + Started(g) + [Digit(if |g| == 1 then Second(g[0], 0) else Third(g[1], 0))], e + Encode(g))
  {
    if |g| == 1 {
      PadTwo(e, Digit(First(g[0])), Digit(Second(g[0], 0)));
      assert e + Started(g) + [Digit(Second(g[0], 0))] == e + [Digit(First(g[0])), Digit(Second(g[0], 0))];
    } else {
      var u, v, x := Digit(First(g[0])), Digit(Second(g[0], g[1])), Digit(Third(g[1], 0));
      PadOne(e, u, v, x);
      assert e + Started(g) + [x] == e + [u, v, x];
    }
  }

  lemma PadTwo(e: seq<char>, u: char, v: char)
    requires |e| % 4 == 0
    ensures Padding(e + [u, v], e + [u, v, '=', '='])
  {
    assert Repeat('=', 2) == ['=', '='];
  }

  lemma PadOne(e: seq<char>, u: char, v: char, x: char)
    requires |e| % 4 == 0
    ensures Padding(e + [u, v, x], e + [u, v, x, '='])
  {
    assert Repeat('=', 1) == ['='];
  }

  /** The encoding is what the digits are when padded to a multiple of four. */
  ghost predicate Padding(digits: seq<char>, e: seq<char>) {
    && |digits| <= |e| < |digits| + 4 && |e| % 4 == 0
    && e == digits + Repeat('=', |e| - |digits|)
  }

  /** The last digit has zero bits where no octet follows. */
  lemma LastDigit(val: int, a: byte)
    requires val % 0x100 == a
    ensures Sextet(Wrap(val * 0x100), 4) == Second(a, 0)
    ensures Sextet(Wrap(val * 0x100), 6) == Third(a, 0)
  {
    assert val * 0x100 + 0 == val * 0x100;
    CutDigits(val, a, 0);
  }
}
