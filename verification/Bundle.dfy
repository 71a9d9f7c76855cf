/** The container of bundle (Lib/bundle-master/redist): variable-length integers and
    a 32-byte header in front of compressed data. The compression libraries are a
    parameter. */
module Bundle {
  import opened Prelude

  type byte = b: int | 0 <= b < 0x100

  const MAX_HEADER_SIZE: nat := 32
  const MAGIC: byte := 0x70
  const RAW: nat := 0
  const BZIP2: nat := 23
  const SIZE_LIMIT: nat := 0x1_0000_0000_0000_0000

  type size_t = n: nat | n < SIZE_LIMIT

  // ----- variable-length integers

  /** Seven bits a byte, low bits first; the top bit of all bytes but the last is set. */
  function Encoding(val: nat): (out: seq<byte>)
    ensures |out| >= 1
  {
    if val < 0x80 then [val] else [0x80 + val % 0x80] + Encoding(val / 0x80)
  }

  /** bundle_enc_vlebit: every byte gets the top bit, and the last one loses it again. */
  method EncVlebit(value: size_t) returns (out: seq<byte>)
    ensures out == Encoding(value) && |out| <= 10
  {
    out := [0x80 + value % 0x80];
    var val: nat := value / 0x80;
    while val > 0
      invariant Unfinished(value, out, val)
    {
      UnfinishedStep(value, out, val);
      out := out + [0x80 + val % 0x80];
      val := val / 0x80;
    }
    EncodingLength(value, 10);
    out := out[|out| - 1 := out[|out| - 1] - 0x80];
  }

  /** What is written so far, when `val` holds the bits still to be written. */
  ghost predicate Unfinished(value: nat, out: seq<byte>, val: nat) {
    var last := |out| - 1;
    && last >= 0 && out[last] >= 0x80
    && Encoding(value) == if val == 0 then out[last := out[last] - 0x80] else out + Encoding(val)
  }

  lemma UnfinishedStep(value: nat, out: seq<byte>, val: nat)
    requires Unfinished(value, out, val) && val > 0
    ensures Unfinished(value, out + [0x80 + val % 0x80], val / 0x80)
  {
  }

  function Power(b: nat, e: nat): nat { if e == 0 then 1 else b * Power(b, e - 1) }

  /** A value of fewer than 7 * k bits takes at most k bytes. */
  lemma {:induction false} EncodingLength(val: nat, k: nat)
    requires 1 <= k && val < Power(0x80, k)
    ensures |Encoding(val)| <= k
  {
    assert Power(0x80, 1) == 0x80;
    if val >= 0x80 {
      EncodingLength(val / 0x80, k - 1);
    }
  }

  /** What bundle_dec_vlebit finds in s, reading at weight `unit`: the value, in 64
      bits, and the bytes read. None if it would read past the end or shift by 64
      bits or more. */
  function Decoding(s: seq<byte>, unit: nat): (r: Option<(size_t, nat)>)
    ensures r.Some? ==> r.value.1 <= |s|
  {
    if s == [] || unit >= SIZE_LIMIT then None else
    var bits := s[0] % 0x80 * unit;
    if s[0] < 0x80 then Some((bits % SIZE_LIMIT, 1)) else Carry(bits, 1, Decoding(s[1..], unit * 0x80))
  }

  /** A value whose low bits are `out`, read from `n` bytes before the rest. */
  function Carry(out: nat, n: nat, rest: Option<(size_t, nat)>): (r: Option<(size_t, nat)>)
    ensures r.Some? <==> rest.Some?
    ensures r.Some? ==> r.value.1 == n + rest.value.1
  {
    if rest.None? then None else Some(((out + rest.value.0) % SIZE_LIMIT, n + rest.value.1))
  }

  /** bundle_dec_vlebit */
  method DecVlebit(s: seq<byte>) returns (r: Option<(size_t, nat)>)
    ensures r == Decoding(s, 1)
  {
    var out: size_t, i, unit: nat := 0, 0, 1;
    assert s[0..] == s;
    while i < |s| && unit < SIZE_LIMIT
      invariant i <= |s| && Reading(s, i, unit, out)
      decreases |s| - i
    {
      unit, out := TakeBits(s, i, unit, out);
      if s[i] < 0x80 { return Some((out, i + 1)); }
      i := i + 1;
    }
    return None;
  }

  /** One byte: its bits go in at the shift reached, which moves on by seven. */
  method TakeBits(s: seq<byte>, i: nat, unit0: nat, out0: size_t) returns (unit: nat, out: size_t)
    requires i < |s| && unit0 < SIZE_LIMIT && Reading(s, i, unit0, out0)
    ensures s[i] < 0x80 ==> Decoding(s, 1) == Some((out, i + 1))
    ensures s[i] >= 0x80 ==> Reading(s, i + 1, unit, out)
  {
    var bits := s[i] % 0x80 * unit0;
    unit := unit0 * 0x80;
    out := (out0 + bits) % SIZE_LIMIT;
    ReadingStep(s, i, unit0, out0, bits, unit, out);
  }

  /** The value read so far together with the rest is the value of the whole. */
  ghost predicate Reading(s: seq<byte>, i: nat, unit: nat, out: size_t)
    requires i <= |s|
  {
    Decoding(s, 1) == Carry(out, i, Decoding(s[i..], unit))
  }

  lemma ReadingStep(s: seq<byte>, i: nat, unit: nat, out: size_t, bits: nat, unit': nat, out': size_t)
    requires i < |s| && unit < SIZE_LIMIT && Reading(s, i, unit, out)
    requires bits == s[i] % 0x80 * unit && unit' == unit * 0x80 && out' == (out + bits) % SIZE_LIMIT
    ensures s[i] < 0x80 ==> Decoding(s, 1) == Some((out', i + 1))
    ensures s[i] >= 0x80 ==> Reading(s, i + 1, unit', out')
  {
    var rest := Decoding(s[i + 1..], unit');
    DecodingFirst(s, i, unit, s[i] % 0x80, bits, rest);
    CarryTwice(out, i, bits, rest);
    ModAdd(out, bits, SIZE_LIMIT);
  }

  lemma DecodingFirst(s: seq<byte>, i: nat, unit: nat, low: nat, bits: nat, rest: Option<(size_t, nat)>)
    requires i < |s| && unit < SIZE_LIMIT && low == s[i] % 0x80 && bits == low * unit
    requires rest == Decoding(s[i + 1..], unit * 0x80)
    ensures Decoding(s[i..], unit) == if s[i] < 0x80 then Some((bits % SIZE_LIMIT, 1)) else Carry(bits, 1, rest)
  {
  }

  lemma CarryTwice(out: nat, n: nat, bits: nat, rest: Option<(size_t, nat)>)
    ensures Carry(out, n, Carry(bits, 1, rest)) == Carry((out + bits) % SIZE_LIMIT, n + 1, rest)
  {
    if rest.Some? {
      ModAdd(out, bits + rest.value.0, SIZE_LIMIT);
      ModAdd(rest.value.0, out + bits, SIZE_LIMIT);
    }
  }

  lemma ModAdd(a: nat, b: nat, n: nat)
    requires n > 0
    ensures (a + b % n) % n == (a + b) % n
  {
    DivModUnique(a + b, n, (a + b % n) / n + b / n, (a + b % n) % n);
  }

  /** The decoder inverts the encoder for every 64-bit value, whatever follows. */
  lemma {:induction false} VlebitRoundTrip(val: nat, unit: nat, v: nat, rest: seq<byte>)
    requires 1 <= unit < SIZE_LIMIT && v == val * unit && v < SIZE_LIMIT
    ensures Decoding(Encoding(val) + rest, unit) == Some((v, |Encoding(val)|))
    decreases val
  {
    if val < 0x80 {
      DecodingLast(val, unit, v, rest);
    } else {
      var q, r := val / 0x80, val % 0x80;
      var bits, high := Shifted(val, q, r, unit);
      VlebitRoundTrip(q, unit * 0x80, high, rest);
      EncodingFirst(val, rest);
      DecodingMore(Encoding(val) + rest, unit, r, bits, high, |Encoding(q)|);
    }
  }

  lemma EncodingFirst(val: nat, rest: seq<byte>)
    requires val >= 0x80
    ensures var s, more := Encoding(val) + rest, Encoding(val / 0x80);
      s[0] == 0x80 + val % 0x80 && s[1..] == more + rest && |Encoding(val)| == 1 + |more|
  {
    FirstAndRest(0x80 + val % 0x80, Encoding(val / 0x80), rest);
  }

  lemma FirstAndRest(b: byte, more: seq<byte>, rest: seq<byte>)
    ensures ([b] + more + rest)[0] == b && ([b] + more + rest)[1..] == more + rest && |[b] + more| == 1 + |more|
  {
  }

  lemma DecodingLast(b: byte, unit: nat, v: nat, rest: seq<byte>)
    requires b < 0x80 && unit < SIZE_LIMIT && v == b * unit && v < SIZE_LIMIT
    ensures Decoding([b] + rest, unit) == Some((v, 1))
  {
  }

  lemma DecodingMore(s: seq<byte>, unit: nat, r: byte, bits: nat, high: nat, n: nat)
    requires s != [] && s[0] == 0x80 + r && r < 0x80 && unit < SIZE_LIMIT
    requires bits == r * unit && bits + high < SIZE_LIMIT
    requires Decoding(s[1..], unit * 0x80) == Some((high, n))
    ensures Decoding(s, unit) == Some((bits + high, 1 + n))
  {
    DecodingFirst(s, 0, unit, r, bits, Some((high, n)));
    assert s[0..] == s;
  }

  /** The value is the low bits in place and the high bits in place. */
  lemma Shifted(val: nat, q: nat, r: nat, unit: nat) returns (bits: nat, high: nat)
    requires val == q * 0x80 + r && q >= 1 && unit >= 1
    ensures bits == r * unit && high == q * (unit * 0x80) && val * unit == bits + high
    ensures unit * 0x80 <= high
  {
    bits, high := r * unit, q * (unit * 0x80);
    assert (q * 0x80 + r) * unit == bits + high;
  }

  // ----- looking at a container

  /** bundle_padding: the zero bytes in front. */
  function Padding(s: seq<byte>): (n: nat)
    ensures n <= |s|
  {
    if s != [] && s[0] == 0 then 1 + Padding(s[1..]) else 0
  }

  method CountPadding(s: seq<byte>) returns (padding: nat)
    ensures padding == Padding(s)
  {
    padding := 0;
    while padding < |s| && s[padding] == 0
      invariant padding <= |s| && padding + Padding(s[padding..]) == Padding(s)
    {
      assert s[padding..][1..] == s[padding + 1..];
      padding := padding + 1;
    }
  }

  lemma {:induction false} PaddingOfZeros(n: nat, s: seq<byte>)
    requires s == [] || s[0] != 0
    ensures Padding(Repeat<byte>(0, n) + s) == n
  {
    if n > 0 {
      assert (Repeat<byte>(0, n) + s)[1..] == Repeat<byte>(0, n - 1) + s;
      PaddingOfZeros(n - 1, s);
    } else {
      assert Repeat<byte>(0, n) + s == s;
    }
  }

  /** bundle_is_packed */
  predicate IsPacked(s: seq<byte>) {
    var p := Padding(s);
    |s| - p >= 2 && s[p] == MAGIC && s[p + 1] <= BZIP2
  }

  // ----- the codecs

  /** The compression libraries: compress may fail or refuse; `room` is the size of
      the output it is given. The worst-case sizes of five of them are their own. */
  datatype Codec = Codec(
    compress: (nat, seq<byte>, nat) -> Option<seq<byte>>,
    decompress: (nat, seq<byte>, nat) -> Option<seq<byte>>,
    bound: (nat, nat) -> nat)

  /** Decompressing to the original size gives the original. */
  ghost predicate Inverse(c: Codec) {
    forall q, s, room, z ::
      c.compress(q, s, room) == Some(z) && 0 < |z| < |s| ==> c.decompress(q, z, |s|) == Some(s)
  }

  const OWN_BOUND: set<nat> := {2, 3, 7, 9, 15}

  /** bundle_bound */
  function Bound(c: Codec, q: nat, len: nat): nat {
    (if q == RAW then len else if q in OWN_BOUND then c.bound(q, len) else 2 * len) + MAX_HEADER_SIZE
  }

  /** bundle_pack: fails unless the result is smaller than the input, so it always
      fails for RAW. */
  function Compress(c: Codec, q: nat, s: seq<byte>, room: nat): (r: Option<seq<byte>>)
    ensures r.Some? ==> RAW < q <= BZIP2 && 0 < |r.value| < |s| && c.compress(q, s, room) == r
  {
    if s == [] || room < |s| || q > BZIP2 then None else
    var r := if q == RAW then Some(s) else c.compress(q, s, room);
    if r.Some? && 0 < |r.value| < |s| then r else None
  }

  datatype Outcome = Fault | Failed | Done(bytes: seq<byte>)

  /** bundle_unpack: RAW copies all it is given, whatever the output can hold. */
  function Decompress(c: Codec, q: nat, z: seq<byte>, size: nat): Outcome {
    if z == [] || size == 0 || q > BZIP2 then Failed
    else if q == RAW then if |z| <= size then Done(z) else Fault
    else
      var r := c.decompress(q, z, size);
      if r.None? then Failed else Done(r.value)
  }

  // ----- the container

  function Header(q: byte, size: nat, zsize: nat): seq<byte> {
    [MAGIC, q] + Encoding(size) + Encoding(zsize)
  }

  function Container(q: byte, size: nat, z: seq<byte>): seq<byte> {
    var h := Header(q, size, |z|);
    Repeat<byte>(0, if |h| <= MAX_HEADER_SIZE then MAX_HEADER_SIZE - |h| else 0) + h + z
  }

  /** pack: whether it succeeded, and the output. Whatever could not be compressed is
      copied. */
  method Pack(c: Codec, q: nat, input: seq<byte>) returns (ok: bool, output: seq<byte>)
    requires |input| < SIZE_LIMIT
    ensures (ok, output) == Packed(c, q, input)
    ensures input == [] ==> ok && output == []
    ensures input != [] ==> var room := 32 + (if q in {2, 3, 7, 9, 15} then c.bound(q, |input|) else 2 * |input|);
      ok <==> 1 <= q <= 23 && room >= |input| && var z := c.compress(q, input, room);
        z.Some? && 0 < |z.value| < |input|
    ensures !ok ==> output == input
    ensures ok && input != [] ==> |output| < MAX_HEADER_SIZE + |input|
  {
    if input == [] { return true, input; }
    var zlen := Bound(c, q, |input|);
    var z := Compress(c, q, input, zlen);
    if z.None? { return false, input; }
    output := Repeat<byte>(0, MAX_HEADER_SIZE) + z.value;
    var size1 := EncVlebit(|input|);
    var size2 := EncVlebit(|output| - MAX_HEADER_SIZE);
    var header := [MAGIC, q] + size1 + size2;
    var at := MAX_HEADER_SIZE - |header|;
    output := output[..at] + header + output[MAX_HEADER_SIZE..];
    HeaderPlaced(at, header, z.value);
    return true, output;
  }

  lemma HeaderPlaced(at: nat, header: seq<byte>, z: seq<byte>)
    requires at + |header| == MAX_HEADER_SIZE
    ensures (Repeat<byte>(0, MAX_HEADER_SIZE) + z)[..at] + header + (Repeat<byte>(0, MAX_HEADER_SIZE) + z)[MAX_HEADER_SIZE..]
            == Repeat<byte>(0, at) + header + z
  {
  }

  function Packed(c: Codec, q: nat, input: seq<byte>): (bool, seq<byte>) {
    if input == [] then (true, input) else
    var z := Compress(c, q, input, Bound(c, q, |input|));
    if z.None? then (false, input) else (true, Container(q, |input|, z.value))
  }

  /** unpack: Done with what was packed, Failed with a copy of the input, Fault if the
      header or the data end early. */
  method Unpack(c: Codec, input: seq<byte>) returns (r: Outcome, output: seq<byte>)
    ensures r == Unpacked(c, input)
    ensures output == match r case Done(bytes) => bytes case Failed => input case Fault => []
  {
    if IsPacked(input) {
      var pad := CountPadding(input);
      var q := input[pad + 1];
      var ptr := input[pad + 2..];
      var size1 := DecVlebit(ptr);
      if size1.None? { return Fault, []; }
      ptr := ptr[size1.value.1..];
      var size2 := DecVlebit(ptr);
      if size2.None? { return Fault, []; }
      ptr := ptr[size2.value.1..];
      if size2.value.0 > |ptr| { return Fault, []; }
      r := Decompress(c, q, ptr[..size2.value.0], size1.value.0);
      if r.Done? { return r, r.bytes; }
      if r.Fault? { return r, []; }
    }
    return Failed, input;
  }

  function Unpacked(c: Codec, s: seq<byte>): Outcome {
    if !IsPacked(s) then Failed else UnpackedFrom(c, s[Padding(s) + 1], s[Padding(s) + 2..])
  }

  function UnpackedFrom(c: Codec, q: byte, ptr: seq<byte>): Outcome {
    var size1 := Decoding(ptr, 1);
    if size1.None? then Fault else
    var size2 := Decoding(ptr[size1.value.1..], 1);
    if size2.None? then Fault else
    var z := ptr[size1.value.1..][size2.value.1..];
    if size2.value.0 > |z| then Fault else Decompress(c, q, z[..size2.value.0], size1.value.0)
  }

  /** The header always fits: 2 bytes and twice at most 10. */
  lemma HeaderFits(q: byte, size: size_t, zsize: size_t)
    ensures |Header(q, size, zsize)| <= 22
  {
    EncodingLength(size, 10);
    EncodingLength(zsize, 10);
  }

  /** A container is recognised, and its header read back. */
  lemma ContainerReads(c: Codec, q: byte, size: size_t, z: seq<byte>)
    requires q <= BZIP2 && |z| < SIZE_LIMIT
    ensures IsPacked(Container(q, size, z)) && |Container(q, size, z)| == MAX_HEADER_SIZE + |z|
    ensures Unpacked(c, Container(q, size, z)) == Decompress(c, q, z, size)
  {
    HeaderFits(q, size, |z|);
    var sizes := Encoding(size) + Encoding(|z|);
    var pad := MAX_HEADER_SIZE - 2 - |sizes|;
    assert Container(q, size, z) == Repeat<byte>(0, pad) + ([MAGIC, q] + (sizes + z));
    LookInside(pad, q, sizes + z);
    SizesRead(c, q, size, z);
  }

  lemma LookInside(pad: nat, q: byte, rest: seq<byte>)
    requires q <= BZIP2
    ensures var s := Repeat<byte>(0, pad) + ([MAGIC, q] + rest);
      Padding(s) == pad && IsPacked(s) && s[pad + 1] == q && s[pad + 2..] == rest
  {
    PaddingOfZeros(pad, [MAGIC, q] + rest);
  }

  lemma SizesRead(c: Codec, q: byte, size: size_t, z: seq<byte>)
    requires |z| < SIZE_LIMIT
    ensures UnpackedFrom(c, q, Encoding(size) + Encoding(|z|) + z) == Decompress(c, q, z, size)
  {
    var ptr := Encoding(size) + Encoding(|z|) + z;
    assert ptr == Encoding(size) + (Encoding(|z|) + z);
    VlebitRoundTrip(size, 1, size, Encoding(|z|) + z);
    assert ptr[|Encoding(size)|..] == Encoding(|z|) + z;
    VlebitRoundTrip(|z|, 1, |z|, z);
    assert (Encoding(|z|) + z)[|Encoding(|z|)|..] == z;
    assert z[..|z|] == z;
  }

  /** What was packed unpacks to the input; a copy unpacks to itself if it does not
      look packed. */
  lemma PackRoundTrip(c: Codec, q: nat, input: seq<byte>)
    requires Inverse(c) && 0 < |input| < SIZE_LIMIT
    ensures Packed(c, q, input).0 ==> Unpacked(c, Packed(c, q, input).1) == Done(input)
    ensures !Packed(c, q, input).0 ==> Packed(c, q, input).1 == input
    ensures !Packed(c, q, input).0 && !IsPacked(input) ==> Unpacked(c, input) == Failed
  {
    var room := Bound(c, q, |input|);
    var z := Compress(c, q, input, room);
    if z.Some? {
      assert c.decompress(q, z.value, |input|) == Some(input);
      ContainerReads(c, q, |input|, z.value);
    }
  }

  /** The copy has to be one that does not look packed: where packing a container
      again falls back to a copy, unpacking that copy takes off the layer that was
      there before. */
  lemma RepackedLosesALayer(c: Codec, q: nat, q': nat, input: seq<byte>)
    requires Inverse(c) && 0 < |input| < SIZE_LIMIT && Packed(c, q, input).0
    requires !Packed(c, q', Packed(c, q, input).1).0
    ensures Unpacked(c, Packed(c, q', Packed(c, q, input).1).1) == Done(input)
    ensures IsPacked(Packed(c, q, input).1)
  {
    PackRoundTrip(c, q, input);
    var z := Compress(c, q, input, Bound(c, q, |input|));
    ContainerReads(c, q, |input|, z.value);
  }

  /** A header that is complete and says that there is nothing to decompress. */
  predicate NothingInside(s: seq<byte>)
    requires IsPacked(s)
  {
    var ptr := s[Padding(s) + 2..];
    var size1 := Decoding(ptr, 1);
    size1.Some? &&
    var size2 := Decoding(ptr[size1.value.1..], 1);
    size2.Some? && size2.value.0 <= |ptr| - size1.value.1 - size2.value.1
    && (size1.value.0 == 0 || size2.value.0 == 0)
  }

  /** A copy unpacks to itself whatever the codecs do, if it does not look packed or
      there is nothing inside; and only then: otherwise there are codecs, good ones,
      with which unpacking it faults or gives something else. */
  lemma CopyRestored(c: Codec, s: seq<byte>) returns (bad: Codec)
    ensures !IsPacked(s) || NothingInside(s) ==> Unpacked(c, s) == Failed
    ensures IsPacked(s) && !NothingInside(s) ==>
      Inverse(bad) && Unpacked(bad, s) != Failed && Unpacked(bad, s) != Done(s)
  {
    bad := Codec((q, s, room) => None, (q, z, size) => Some([]), (q, len) => 0);
  }

  /** Without compression nothing is ever packed: RAW data always comes out as a copy. */
  lemma RawIsCopied(c: Codec, input: seq<byte>)
    requires input != []
    ensures Packed(c, RAW, input) == (false, input)
  {
  }

  // ----- what the bytes mean

  /** The value of base-128 digits, the low one first; the top bits do not count. */
  function Weighted(s: seq<byte>): nat {
    if s == [] then 0 else s[0] % 0x80 + 0x80 * Weighted(s[1..])
  }

  /** The first k bytes have the top bit set. */
  predicate Continued(s: seq<byte>, k: nat) { k <= |s| && forall j :: 0 <= j < k ==> s[j] >= 0x80 }

  /** What any bytes are read as: the digits up to the first byte without the top bit, in
      64 bits, if it is among the first ten; otherwise nothing. */
  lemma DecodingMeans(s: seq<byte>, k: nat)
    requires Continued(s, k)
    ensures k < |s| && s[k] < 0x80 && k < 10 ==> Decoding(s, 1) == Some((Weighted(s[..k + 1]) % SIZE_LIMIT, k + 1))
    ensures k == |s| || k >= 10 ==> Decoding(s, 1) == None
  {
    assert Power(0x80, 0) == 1;
    if k < |s| && s[k] < 0x80 && k < 10 {
      ReadsOn(s, k, 0, 1);
    } else if k == |s| || k >= 10 {
      NeverEnds(s, k, 0, 1);
    }
  }

  lemma UnitBound(i: nat)
    ensures i < 10 ==> Power(0x80, i) < SIZE_LIMIT
    ensures i == 10 ==> Power(0x80, i) >= SIZE_LIMIT
  {
    assert Power(0x80, 1) == 0x80 && Power(0x80, 2) == 0x4000 && Power(0x80, 3) == 0x20_0000;
    assert Power(0x80, 4) == 0x1000_0000 && Power(0x80, 5) == 0x8_0000_0000 && Power(0x80, 6) == 0x400_0000_0000;
    assert Power(0x80, 7) == 0x2_0000_0000_0000 && Power(0x80, 8) == 0x100_0000_0000_0000;
    assert Power(0x80, 9) == 0x8000_0000_0000_0000 && Power(0x80, 10) == 0x40_0000_0000_0000_0000;
  }

  lemma {:induction false} ReadsOn(s: seq<byte>, k: nat, i: nat, unit: nat)
    requires Continued(s, k) && k < |s| && s[k] < 0x80 && i + k < 10 && unit == Power(0x80, i)
    ensures Decoding(s, unit) == Some((Weighted(s[..k + 1]) * unit % SIZE_LIMIT, k + 1))
    decreases k
  {
    UnitBound(i);
    assert s[0..] == s;
    var low, rest, unit' := s[0] % 0x80, s[1..], unit * 0x80;
    DecodingFirst(s, 0, unit, low, low * unit, Decoding(rest, unit'));
    if k == 0 {
      assert s[..1] == [s[0]] && Weighted([s[0]]) == low;
    } else {
      ReadsOn(rest, k - 1, i + 1, unit');
      WeightedCons(s, k, low, Weighted(rest[..k]), unit, unit');
    }
  }

  lemma WeightedCons(s: seq<byte>, k: nat, low: nat, high: nat, unit: nat, unit': nat)
    requires k < |s| && low == s[0] % 0x80 && high == Weighted(s[1..][..k]) && unit' == unit * 0x80
    ensures (low * unit + high * unit' % SIZE_LIMIT) % SIZE_LIMIT == Weighted(s[..k + 1]) * unit % SIZE_LIMIT
  {
    assert s[..k + 1][1..] == s[1..][..k];
    WeightedSum(low, high, unit, unit');
    ModAdd(low * unit, high * unit', SIZE_LIMIT);
  }

  lemma WeightedSum(low: nat, high: nat, unit: nat, unit': nat)
    requires unit' == unit * 0x80
    ensures (low + 0x80 * high) * unit == low * unit + high * unit'
  {
  }

  lemma {:induction false} NeverEnds(s: seq<byte>, k: nat, i: nat, unit: nat)
    requires Continued(s, k) && (k == |s| || i + k >= 10) && i <= 10 && unit == Power(0x80, i)
    ensures Decoding(s, unit) == None
    decreases k
  {
    UnitBound(i);
    if k > 0 && i < 10 {
      NeverEnds(s[1..], k - 1, i + 1, unit * 0x80);
    }
  }

  /** What looks packed: zero bytes, the mark 0x70, and a codec that there is. */
  lemma PackedLooks(n: nat, s: seq<byte>)
    requires s == [] || s[0] != 0
    ensures IsPacked(Repeat<byte>(0, n) + s) <==> |s| >= 2 && s[0] == 0x70 && s[1] <= 23
  {
    PaddingOfZeros(n, s);
    var all := Repeat<byte>(0, n) + s;
    assert |s| >= 2 ==> all[n] == s[0] && all[n + 1] == s[1];
  }

  /** What unpacking makes of any container: nothing without data or size; raw data is
      copied as it is, and overruns an output that is too small; everything else is up to
      the codec. */
  lemma ContainerMeans(c: Codec, q: byte, size: size_t, z: seq<byte>)
    requires q <= 23 && |z| < SIZE_LIMIT
    ensures Unpacked(c, Container(q, size, z)) ==
      if |z| == 0 || size == 0 then Failed
      else if q == 0 then (if |z| <= size then Done(z) else Fault)
      else match c.decompress(q, z, size) case Some(s) => Done(s) case None => Failed
  {
    ContainerReads(c, q, size, z);
  }
}
