/** The calculator's wire protocol (protocol/protocol.hpp): frames of a length, a
    line feed, a payload and a line feed, and the printed requests in them. */
module Framing {
  import opened Prelude
  import opened Numbers
  import opened HttpText

  const TWO64: nat := 0x1_0000_0000_0000_0000

  /** What Decode makes of a payload. */
  function Frame(payload: string): string {
    ToString(|payload|) + "\n" + payload + "\n"
  }

  /** The total length that Encode computes, in 64-bit arithmetic, from the text in
      front of the first line feed. */
  function TotalLength(text: string): (n: nat)
    ensures n < TWO64
  {
    (|text| + Atoi(text) + 2) % TWO64
  }

  datatype Unframed = Incomplete | Content(content: string, rest: string)

  /** std::string::substr: at most n characters. */
  function Substr(s: string, from: nat, n: nat): string
    requires from <= |s|
  {
    if from + n <= |s| then s[from..from + n] else s[from..]
  }

  /** What Encode takes from the front of the buffer. */
  function Unframe(buffer: string): Unframed {
    var left := IndexOf(buffer, '\n');
    if left == |buffer| then Incomplete else
    var total := TotalLength(buffer[..left]);
    if |buffer| < total then Incomplete
    else Content(Substr(buffer, left + 1, total), buffer[total..])
  }

  class Packages {
    var package: string

    constructor (package: string)
      ensures this.package == package
    {
      this.package := package;
    }

    /** Decode puts the frame around the package. */
    method Decode() returns (ok: bool)
      modifies this
      ensures ok && package == Frame(old(package))
    {
      var temp := ToString(|package|);
      temp := temp + "\n";
      temp := temp + package;
      temp := temp + "\n";
      package := temp;
      return true;
    }

    /** Encode takes a frame off the front, or leaves the buffer as it is. */
    method Encode() returns (ok: bool, content: string)
      modifies this
      ensures ok <==> Unframe(old(package)).Content?
      ensures ok ==> (content, package) == (Unframe(old(package)).content, Unframe(old(package)).rest)
      ensures !ok ==> package == old(package)
    {
      var left := IndexOf(package, '\n');
      if left == |package| { return false, ""; }
      var sizeLen := package[..left];
      var size := Atoi(sizeLen);
      var total := (|sizeLen| + size + 2) % TWO64;
      assert total == TotalLength(sizeLen);
      if |package| < total { return false, ""; }
      content := Substr(package, left + 1, total);
      package := package[total..];
      return true, content;
    }
  }

  // ----- frames in a stream

  /** A payload whose length an int can hold. */
  predicate Fits(payload: string) { |payload| <= INT_MAX }

  lemma NoLineFeed(x: int)
    ensures '\n' !in ToString(x) && ' ' !in ToString(x)
  {
  }

  /** The text in front of the first line feed gives the length of the frame. */
  lemma FrameLength(payload: string, more: string)
    requires Fits(payload)
    ensures var text := ToString(|payload|); var s := text + "\n" + more;
      && IndexOf(s, '\n') == |text| < |s| && s[..|text|] == text
      && TotalLength(text) == |Frame(payload)|
  {
    var text := ToString(|payload|);
    NoLineFeed(|payload|);
    assert text + "\n" + more == text + ['\n'] + more;
    IndexOfUnique(text, '\n', more);
    FrameTotal(payload);
  }

  lemma FrameTotal(payload: string)
    requires Fits(payload)
    ensures TotalLength(ToString(|payload|)) == |Frame(payload)|
  {
    var text := ToString(|payload|);
    assert text + [] == text;
    AtoiToString(|payload|, []);
    DecimalLength(|payload|);
    TotalIs(text, |payload|);
    FrameSize(payload);
  }

  lemma TotalIs(text: string, n: nat)
    requires Atoi(text) == n <= INT_MAX && |text| <= n + 1
    ensures TotalLength(text) == |text| + n + 2
  {
  }

  lemma FrameSize(payload: string)
    ensures |Frame(payload)| == |ToString(|payload|)| + |payload| + 2
  {
  }

  /** A number is not longer than its value and one. */
  lemma {:induction false} DecimalLength(n: nat)
    ensures |Decimal(n)| <= n + 1
  {
    if n >= 10 {
      DecimalLength(n / 10);
    }
  }

  /** The bytes behind the frame that Encode hands out with the payload. */
  function Behind(payload: string, rest: string): string {
    Substr(rest, 0, if |ToString(|payload|)| + 1 <= |rest| then |ToString(|payload|)| + 1 else |rest|)
  }

  /** Exactly one frame comes off the front; the content begins with the payload and
      its line feed, and may go on with bytes of what follows. */
  lemma UnframeFrame(payload: string, rest: string)
    requires Fits(payload)
    ensures Unframe(Frame(payload) + rest) ==
      Content(payload + "\n" + Behind(payload, rest), rest)
  {
    var text := ToString(|payload|);
    var buffer := Frame(payload) + rest;
    FrameLength(payload, payload + "\n" + rest);
    assert buffer == text + "\n" + (payload + "\n" + rest);
    var total := |Frame(payload)|;
    assert buffer[total..] == rest;
    var extra := if |text| + 1 <= |rest| then |text| + 1 else |rest|;
    assert buffer[|text| + 1..] == payload + "\n" + rest;
    assert Substr(buffer, |text| + 1, total) == payload + "\n" + rest[..extra];
  }

  /** While the frame is not complete, nothing is taken. */
  lemma UnframePart(payload: string, n: nat)
    requires Fits(payload) && n < |Frame(payload)|
    ensures Unframe(Frame(payload)[..n]) == Incomplete
  {
    var text := ToString(|payload|);
    var buffer := Frame(payload)[..n];
    NoLineFeed(|payload|);
    assert Frame(payload) == text + "\n" + (payload + "\n");
    if n <= |text| {
      assert buffer == text[..n];
      IndexOfNone(buffer, '\n');
    } else {
      var more := (payload + "\n")[..n - |text| - 1];
      assert buffer == text + "\n" + more;
      FrameLength(payload, more);
    }
  }

  /** What is taken off any buffer, by the number that begins its first line: nothing
      while that many bytes, and two, are not there behind the text, or if the sum is
      negative; otherwise as many bytes as the sum are erased, and up to as many behind
      the line feed are handed out. */
  lemma UnframeMeans(text: string, more: string)
    requires '\n' !in text && |text| + 1 + |more| < 0x8000_0000_0000_0000
    ensures var s, total: int := text + ['\n'] + more, |text| + Atoi(text) + 2;
      Unframe(s) ==
        if 0 <= total <= |s| then Content(more[..if total <= |more| then total else |more|], s[total..]) else Incomplete
  {
    var s := text + ['\n'] + more;
    IndexOfUnique(text, '\n', more);
    assert s[..|text|] == text && s[|text| + 1..] == more;
    TotalMeans(text, |s|);
    var total := TotalLength(text);
    if total <= |s| && |text| + 1 + total <= |s| {
      assert s[|text| + 1..|text| + 1 + total] == more[..total];
    }
  }

  lemma TotalMeans(text: string, size: nat)
    requires |text| < size < 0x8000_0000_0000_0000
    ensures var total: int := |text| + Atoi(text) + 2;
      TotalLength(text) <= size <==> 0 <= total <= size
    ensures var total: int := |text| + Atoi(text) + 2; 0 <= total ==> TotalLength(text) == total
  {
  }

  lemma NoLineNoFrame(s: string)
    requires '\n' !in s
    ensures Unframe(s) == Incomplete
  {
    IndexOfNone(s, '\n');
  }

  /** Encode can report a frame and take nothing off, so that a loop over it does not
      end: exactly when the number is the negative of its own length and two, as in "-4". */
  lemma StallsExactly(text: string, more: string)
    requires '\n' !in text && |text| + 1 + |more| < 0x8000_0000_0000_0000
    ensures var s := text + ['\n'] + more;
      Unframe(s).Content? && Unframe(s).rest == s <==> Atoi(text) == -|text| - 2
  {
    UnframeMeans(text, more);
  }

  lemma MinusFour()
    ensures Atoi("-4") == -4 == -|"-4"| - 2
  {
    assert Decimal(4) == [Digit(4)] == "4";
    assert ['-'] + "4" == "-4" && "-4" + "" == "-4";
    AtoiToString(-4, "");
  }

  function Frames(payloads: seq<string>): string {
    if payloads == [] then "" else Frame(payloads[0]) + Frames(payloads[1..])
  }

  /** What a receiver has after some bytes: the contents taken off and the buffer. */
  datatype Receiver = Receiver(contents: seq<string>, buffer: string)

  /** Takes frames off while there are any. */
  function Drain(r: Receiver): Receiver
    decreases |r.buffer|
  {
    match Unframe(r.buffer)
    case Incomplete => r
    case Content(content, rest) =>
      if |rest| < |r.buffer| then Drain(Receiver(r.contents + [content], rest)) else r
  }

  /** The bytes arrive in any pieces. */
  function Receive(r: Receiver, pieces: seq<string>): Receiver
    decreases |pieces|
  {
    if pieces == [] then r else
    Receive(Drain(r.(buffer := r.buffer + pieces[0])), pieces[1..])
  }

  /** A content is its payload and a line feed, and then perhaps the first bytes of
      what followed, no more than the length of the frame has digits and one. */
  ghost predicate ContentTaken(content: string, payload: string, following: string) {
    && payload + "\n" <= content && content[|payload| + 1..] <= following
    && |content| <= |payload| + |ToString(|payload|)| + 2
  }

  /** The contents of the first frames, in order. */
  ghost predicate Taken(contents: seq<string>, payloads: seq<string>) {
    |contents| <= |payloads| &&
    forall i :: 0 <= i < |contents| ==> ContentTaken(contents[i], payloads[i], Frames(payloads[i + 1..]))
  }

  ghost predicate AllFit(payloads: seq<string>) {
    forall i :: 0 <= i < |payloads| ==> Fits(payloads[i])
  }

  /** Where the receiver is in the stream: k frames are off, and what is buffered
      with what is still to come is the rest of the frames. */
  ghost predicate Position(r: Receiver, payloads: seq<string>, k: nat, future: string)
    requires k <= |payloads|
  {
    |r.contents| == k && Taken(r.contents, payloads) && r.buffer + future == Frames(payloads[k..])
  }

  /** Draining takes off every frame that is complete. */
  lemma {:induction false} DrainStream(r: Receiver, payloads: seq<string>, k: nat, future: string) returns (j: nat)
    requires AllFit(payloads) && k <= |payloads| && Position(r, payloads, k, future)
    ensures k <= j <= |payloads| && Position(Drain(r), payloads, j, future)
    ensures Unframe(Drain(r).buffer) == Incomplete
    ensures future == "" ==> j == |payloads|
    decreases |r.buffer|
  {
    if k == |payloads| {
      assert r.buffer == "";
      return k;
    }
    var payload, rest := payloads[k], Frames(payloads[k + 1..]);
    FirstFrame(payloads, k);
    if |r.buffer| < |Frame(payload)| {
      FramePart(r.buffer, future, payload, rest);
      return k;
    }
    var left := r.buffer[|Frame(payload)|..];
    FrameWhole(r.buffer, future, Frame(payload), rest, left);
    UnframeFrame(payload, left);
    var r1 := Receiver(r.contents + [Unframe(r.buffer).content], left);
    ExtraFollows(payload, left, future, rest);
    assert Drain(r) == Drain(r1);
    j := DrainStream(r1, payloads, k + 1, future);
  }

  lemma FirstFrame(payloads: seq<string>, k: nat)
    requires k < |payloads|
    ensures Frames(payloads[k..]) == Frame(payloads[k]) + Frames(payloads[k + 1..])
  {
    assert payloads[k..][1..] == payloads[k + 1..];
  }

  lemma FramePart(buffer: string, future: string, payload: string, rest: string)
    requires Fits(payload) && buffer + future == Frame(payload) + rest && |buffer| < |Frame(payload)|
    ensures Unframe(buffer) == Incomplete
  {
    assert buffer == (Frame(payload) + rest)[..|buffer|] == Frame(payload)[..|buffer|];
    UnframePart(payload, |buffer|);
  }

  lemma FrameWhole(buffer: string, future: string, frame: string, rest: string, left: string)
    requires buffer + future == frame + rest && |buffer| >= |frame| && left == buffer[|frame|..]
    ensures buffer == frame + left && left + future == rest
  {
    assert buffer[..|frame|] == (buffer + future)[..|frame|] == frame;
    assert (buffer + future)[|frame|..] == left + future;
  }

  lemma ExtraFollows(payload: string, left: string, future: string, rest: string)
    requires left + future == rest
    ensures ContentTaken(payload + "\n" + Behind(payload, left), payload, rest)
  {
    var extra := Behind(payload, left);
    assert extra <= left <= rest;
    assert (payload + "\n" + extra)[|payload| + 1..] == extra;
  }

  lemma FramesNotEmpty(payloads: seq<string>)
    ensures payloads != [] ==> Frames(payloads) != ""
  {
  }

  lemma {:induction false} ReceiveStream(r: Receiver, pieces: seq<string>, payloads: seq<string>, k: nat)
    requires AllFit(payloads) && k <= |payloads| && Position(r, payloads, k, Concat(pieces))
    requires pieces == [] ==> r.buffer == ""
    ensures var q := Receive(r, pieces); |q.contents| == |payloads| && Taken(q.contents, payloads) && q.buffer == ""
    decreases |pieces|
  {
    if pieces == [] {
      FramesNotEmpty(payloads[k..]);
    } else {
      var future := Concat(pieces[1..]);
      assert r.buffer + (pieces[0] + future) == r.buffer + pieces[0] + future;
      var r1 := r.(buffer := r.buffer + pieces[0]);
      var j := DrainStream(r1, payloads, k, future);
      ReceiveStream(Drain(r1), pieces[1..], payloads, j);
    }
  }

  /** The framing law: any payloads that fit, framed one after the other and arriving
      in any pieces, are all taken off, in order, one content each, and nothing is
      left over. */
  lemma StreamLaw(payloads: seq<string>, pieces: seq<string>)
    requires AllFit(payloads) && Concat(pieces) == Frames(payloads)
    ensures var q := Receive(Receiver([], ""), pieces); |q.contents| == |payloads| && Taken(q.contents, payloads) && q.buffer == ""
  {
    var r := Receiver([], "");
    assert "" + Concat(pieces) == Concat(pieces);
    assert payloads[0..] == payloads;
    ReceiveStream(r, pieces, payloads, 0);
  }

  // ----- requests and responses

  /** A printed request: x, the operator and y. */
  function PrintRequest(x: int, op: char, y: int): string {
    ToString(x) + " " + [op] + " " + ToString(y)
  }

  /** rfind: the last position of c, -1 if there is none. */
  function LastIndexOf(s: string, c: char): (r: int)
    ensures -1 <= r < |s|
    ensures r >= 0 ==> s[r] == c
    ensures forall i :: r < i < |s| ==> s[i] != c
  {
    if s == [] then -1 else if s[|s| - 1] == c then |s| - 1 else LastIndexOf(s[..|s| - 1], c)
  }

  class Request {
    var x: int
    var y: int
    var op: char

    constructor (x: int, y: int, op: char)
      ensures (this.x, this.y, this.op) == (x, y, op)
    {
      this.x, this.y, this.op := x, y, op;
    }

    method Serialize() returns (ok: bool, out: string)
      ensures ok && out == PrintRequest(x, op, y)
    {
      var temp := ToString(x);
      temp := temp + " ";
      temp := temp + [op];
      temp := temp + " ";
      temp := temp + ToString(y);
      return true, temp;
    }

    /** Deserialize: the two numbers around the outer spaces and the character
        between them, which must be two apart. */
    method Deserialize(s: string) returns (ok: bool)
      modifies this
      ensures ok <==> IndexOf(s, ' ') < |s| && IndexOf(s, ' ') + 2 == LastIndexOf(s, ' ')
      ensures ok ==> x == Atoi(s[..IndexOf(s, ' ')]) && y == Atoi(s[LastIndexOf(s, ' ') + 1..])
      ensures ok ==> op == s[IndexOf(s, ' ') + 1]
      ensures !ok ==> (x, op, y) == old((x, op, y))
    {
      var left := IndexOf(s, ' ');
      if left == |s| { return false; }
      var partLeft := s[..left];
      var right := LastIndexOf(s, ' ');
      if left + 2 != right { return false; }
      var partRight := s[right + 1..];
      x := Atoi(partLeft);
      y := Atoi(partRight);
      op := s[left + 1];
      return true;
    }
  }

  /** Text with its only outer spaces around one character. */
  lemma TwoSpaces(a: string, op: char, b: string)
    requires ' ' !in a && ' ' !in b
    ensures var s := a + " " + [op] + " " + b;
      && IndexOf(s, ' ') == |a| && LastIndexOf(s, ' ') == |a| + 2 < |s|
      && s[..|a|] == a && s[|a| + 1] == op && s[|a| + 3..] == b
  {
    var s := a + " " + [op] + " " + b;
    assert s == a + [' '] + ([op] + " " + b);
    IndexOfUnique(a, ' ', [op] + " " + b);
    assert s[..|a|] == a && s[|a| + 2] == ' ' && s[|a| + 3..] == b;
    assert forall i :: |a| + 2 < i < |s| ==> s[i] == b[i - |a| - 3];
  }

  /** The reading of s that Deserialize does succeeds with this request. */
  predicate Reads(s: string, x: int, op: char, y: int) {
    var left := IndexOf(s, ' ');
    && left < |s| && left + 2 == LastIndexOf(s, ' ')
    && Atoi(s[..left]) == x && s[left + 1] == op && Atoi(s[left + 3..]) == y
  }

  /** Reading a printed request with anything behind it that has no space and does
      not begin with a digit: the numbers and the operator are found again, even
      when the operator is a space. */
  lemma ReadRequest(x: int, op: char, y: int, tail: string)
    requires INT_MIN <= x <= INT_MAX && INT_MIN <= y <= INT_MAX
    requires ' ' !in tail && (tail == "" || !IsDigit(tail[0]))
    ensures Reads(PrintRequest(x, op, y) + tail, x, op, y)
  {
    NoLineFeed(x);
    NoLineFeed(y);
    TwoSpaces(ToString(x), op, ToString(y) + tail);
    AppendAssoc(ToString(x) + " " + [op] + " ", ToString(y), tail);
    assert ToString(x) + [] == ToString(x);
    AtoiToString(x, []);
    AtoiToString(y, tail);
  }

  /** Requests over the wire: the content that Encode hands out for the frame of a
      printed request reads back as that request, when there is no space in the first
      three bytes of what arrived behind the frame. */
  lemma RequestLaw(x: int, op: char, y: int, rest: string)
    requires INT_MIN <= x <= INT_MAX && INT_MIN <= y <= INT_MAX
    requires NoSpaceAhead(rest)
    ensures var r := Unframe(Frame(PrintRequest(x, op, y)) + rest);
      r.Content? && r.rest == rest && Reads(r.content, x, op, y)
  {
    var payload := PrintRequest(x, op, y);
    RequestLength(x, op, y);
    ContentOf(payload, rest);
    var extra := Behind(payload, rest);
    NoSpaceIn(rest, extra);
    ReadRequest(x, op, y, "\n" + extra);
  }

  datatype Asked = Asked(x: int, op: char, y: int)

  predicate InRange(asked: seq<Asked>) {
    forall i :: 0 <= i < |asked| ==> INT_MIN <= asked[i].x <= INT_MAX && INT_MIN <= asked[i].y <= INT_MAX
  }

  function Printed(asked: seq<Asked>): seq<string> {
    seq(|asked|, i requires 0 <= i < |asked| => PrintRequest(asked[i].x, asked[i].op, asked[i].y))
  }

  /** The frame of a request begins with no space in its first three bytes: its length
      has at most two digits, and a line feed and a number follow. */
  lemma FrameAhead(x: int, op: char, y: int, more: string)
    requires INT_MIN <= x <= INT_MAX && INT_MIN <= y <= INT_MAX
    ensures var s := Frame(PrintRequest(x, op, y)) + more; |s| >= 3 && ' ' !in s[..3]
  {
    var payload := PrintRequest(x, op, y);
    var length := ToString(|payload|);
    RequestLength(x, op, y);
    NoLineFeed(|payload|);
    NoLineFeed(x);
    ShortNumber(x);
    FirstThree(length, payload, Frame(payload) + more);
  }

  lemma FirstThree(length: string, payload: string, s: string)
    requires length + "\n" + payload <= s && 1 <= |length| <= 2 && payload != ""
    requires ' ' !in length && payload[0] != ' '
    ensures |s| >= 3 && ' ' !in s[..3]
  {
    assert s[0] == length[0];
    assert s[1] == if |length| == 2 then length[1] else '\n';
    assert s[2] == if |length| == 2 then '\n' else payload[0];
    assert s[..3] == [s[0], s[1], s[2]];
  }

  /** Requests in a stream: framed one after the other and arriving in any pieces,
      they are all taken off, and each content reads back as its request. */
  lemma RequestStream(asked: seq<Asked>, pieces: seq<string>)
    requires InRange(asked) && Concat(pieces) == Frames(Printed(asked))
    ensures var q := Receive(Receiver([], ""), pieces);
      && |q.contents| == |asked| && q.buffer == ""
      && forall i :: 0 <= i < |asked| ==> Reads(q.contents[i], asked[i].x, asked[i].op, asked[i].y)
  {
    var payloads := Printed(asked);
    forall i | 0 <= i < |payloads| ensures Fits(payloads[i]) {
      RequestLength(asked[i].x, asked[i].op, asked[i].y);
    }
    StreamLaw(payloads, pieces);
    var q := Receive(Receiver([], ""), pieces);
    forall i | 0 <= i < |asked| ensures Reads(q.contents[i], asked[i].x, asked[i].op, asked[i].y) {
      ContentReadsBack(asked, payloads, q.contents, i);
    }
  }

  lemma ContentReadsBack(asked: seq<Asked>, payloads: seq<string>, contents: seq<string>, i: nat)
    requires InRange(asked) && payloads == Printed(asked) && |contents| == |asked| && Taken(contents, payloads)
    requires i < |asked|
    ensures Reads(contents[i], asked[i].x, asked[i].op, asked[i].y)
  {
    NoSpaceBehind(asked, i + 1);
    TakenReads(asked[i], payloads[i], Frames(payloads[i + 1..]), contents[i]);
  }

  /** The first three bytes hold no space. */
  predicate NoSpaceAhead(s: string) { ' ' !in s[..if |s| < 3 then |s| else 3] }

  lemma TakenReads(req: Asked, payload: string, following: string, content: string)
    requires INT_MIN <= req.x <= INT_MAX && INT_MIN <= req.y <= INT_MAX
    requires payload == PrintRequest(req.x, req.op, req.y)
    requires ContentTaken(content, payload, following) && NoSpaceAhead(following)
    ensures Reads(content, req.x, req.op, req.y)
  {
    var extra := content[|payload| + 1..];
    RequestLength(req.x, req.op, req.y);
    NoSpaceIn(following, extra);
    ContentReads(req.x, req.op, req.y, payload, content, extra);
  }

  lemma ContentReads(x: int, op: char, y: int, payload: string, content: string, extra: string)
    requires INT_MIN <= x <= INT_MAX && INT_MIN <= y <= INT_MAX && payload == PrintRequest(x, op, y)
    requires payload + "\n" <= content && extra == content[|payload| + 1..] && ' ' !in extra
    ensures Reads(content, x, op, y)
  {
    assert content == payload + ("\n" + extra);
    ReadRequest(x, op, y, "\n" + extra);
  }

  lemma NoSpaceBehind(asked: seq<Asked>, i: nat)
    requires InRange(asked) && i <= |asked|
    ensures NoSpaceAhead(Frames(Printed(asked)[i..]))
  {
    if i < |asked| {
      var next, rest := asked[i], Printed(asked)[i..];
      assert rest[0] == PrintRequest(next.x, next.op, next.y);
      FrameAhead(next.x, next.op, next.y, Frames(rest[1..]));
    }
  }

  lemma ContentOf(payload: string, rest: string)
    requires Fits(payload)
    ensures Unframe(Frame(payload) + rest) == Content(payload + ("\n" + Behind(payload, rest)), rest)
  {
    UnframeFrame(payload, rest);
    AppendAssoc(payload, "\n", Behind(payload, rest));
  }

  lemma NoSpaceIn(rest: string, extra: string)
    requires NoSpaceAhead(rest) && extra <= rest && |extra| <= 3
    ensures ' ' !in extra
  {
  }

  /** A printed request is so short that its length has at most two digits. */
  lemma RequestLength(x: int, op: char, y: int)
    requires INT_MIN <= x <= INT_MAX && INT_MIN <= y <= INT_MAX
    ensures Fits(PrintRequest(x, op, y)) && |ToString(|PrintRequest(x, op, y)|)| <= 2
  {
    ShortNumber(x);
    ShortNumber(y);
    ShortLength(|PrintRequest(x, op, y)|);
  }

  /** An int has at most eleven characters. */
  lemma ShortNumber(x: int)
    requires INT_MIN <= x <= INT_MAX
    ensures 1 <= |ToString(x)| <= 11
  {
    ShortDecimal(if x < 0 then -x else x, 10);
  }

  function Pow10(k: nat): nat { if k == 0 then 1 else 10 * Pow10(k - 1) }

  lemma {:induction false} ShortDecimal(n: nat, k: nat)
    requires k >= 1 && n < Pow10(k)
    ensures |Decimal(n)| <= k
  {
    if n >= 10 {
      ShortDecimal(n / 10, k - 1);
    }
  }

  lemma ShortLength(n: nat)
    requires n < 100
    ensures |ToString(n)| <= 2
  {
    assert Pow10(2) == 100;
    ShortDecimal(n, 2);
  }

  function PrintResponse(result: int, code: int): string {
    ToString(result) + " " + ToString(code)
  }

  class Response {
    var result: int
    var code: int

    constructor (result: int, code: int)
      ensures (this.result, this.code) == (result, code)
    {
      this.result, this.code := result, code;
    }

    method Serialize() returns (ok: bool, out: string)
      ensures ok && out == PrintResponse(result, code)
    {
      var temp := ToString(result);
      temp := temp + " ";
      temp := temp + ToString(code);
      return true, temp;
    }

    method Deserialize(s: string) returns (ok: bool)
      modifies this
      ensures ok <==> ' ' in s
      ensures ok ==> (result, code) == (Atoi(s[..IndexOf(s, ' ')]), Atoi(s[IndexOf(s, ' ') + 1..]))
      ensures !ok ==> (result, code) == old((result, code))
    {
      var left := IndexOf(s, ' ');
      assert left == |s| ==> s[..left] == s;
      if left == |s| { return false; }
      result := Atoi(s[..left]);
      code := Atoi(s[left + 1..]);
      return true;
    }
  }

  lemma ReadResponse(result: int, code: int, tail: string)
    requires INT_MIN <= result <= INT_MAX && INT_MIN <= code <= INT_MAX
    requires tail == "" || !IsDigit(tail[0])
    ensures var s := PrintResponse(result, code) + tail;
      var left := IndexOf(s, ' ');
      left < |s| && Atoi(s[..left]) == result && Atoi(s[left + 1..]) == code
  {
    NoLineFeed(result);
    OneSpace(ToString(result), ToString(code), tail);
    assert ToString(result) + [] == ToString(result);
    AtoiToString(result, []);
    AtoiToString(code, tail);
  }

  lemma OneSpace(a: string, b: string, tail: string)
    requires ' ' !in a
    ensures var s := a + " " + b + tail;
      IndexOf(s, ' ') == |a| < |s| && s[..|a|] == a && s[|a| + 1..] == b + tail
  {
    assert a + " " + b + tail == a + [' '] + (b + tail);
    IndexOfUnique(a, ' ', b + tail);
  }
}
