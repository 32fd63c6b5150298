/** The receiving side of the frame protocol, examples/detections_client.py:
    `parse_message_size`, the frame-size check and the receive loop, with
    the socket replaced by the byte stream the server sent. */
module Client {
  import opened Wrappers
  import opened Frame

  const HEADER_SIZE: nat := 4
  const MAX_MESSAGE_SIZE: int := 4096

  const PLUS: Byte := 43
  const MINUS: Byte := 45
  const UNDERSCORE: Byte := 95

  predicate IsAscii(s: seq<Byte>) {
    forall i :: 0 <= i < |s| ==> s[i] < 128
  }

  /** The ASCII characters Python's `int()` skips around a number:
      space, tab, newline, vertical tab, form feed, carriage return. */
  predicate IsSpace(b: Byte) {
    b == SPACE || 9 <= b <= 13
  }

  /** Index of the first byte at or after `i` that is not white space. */
  function SkipSpaces(s: seq<Byte>, i: nat): (k: nat)
    requires i <= |s|
    ensures i <= k <= |s|
    ensures forall j :: i <= j < k ==> IsSpace(s[j])
    ensures k < |s| ==> !IsSpace(s[k])
    decreases |s| - i
  {
    if i < |s| && IsSpace(s[i]) then SkipSpaces(s, i + 1) else i
  }

  /** End of `s[..j]` once its trailing white space is dropped. */
  function SkipSpacesBack(s: seq<Byte>, j: nat): (k: nat)
    requires j <= |s|
    ensures k <= j
    ensures forall i :: k <= i < j ==> IsSpace(s[i])
    ensures 0 < k ==> !IsSpace(s[k - 1])
  {
    if 0 < j && IsSpace(s[j - 1]) then SkipSpacesBack(s, j - 1) else j
  }

  function TrimLeft(s: seq<Byte>): seq<Byte> {
    s[SkipSpaces(s, 0)..]
  }

  function TrimRight(s: seq<Byte>): seq<Byte> {
    s[..SkipSpacesBack(s, |s|)]
  }

  /** Digits with single underscores between them, as `int()` accepts. */
  predicate WellFormedDigits(s: seq<Byte>) {
    && s != []
    && IsDigit(s[0])
    && IsDigit(s[|s| - 1])
    && (forall i :: 0 <= i < |s| ==> IsDigit(s[i]) || s[i] == UNDERSCORE)
    && (forall i :: 0 <= i < |s| - 1 ==> !DoubleUnderscoreAt(s, i))
  }

  predicate DoubleUnderscoreAt(s: seq<Byte>, i: nat)
    requires i + 1 < |s|
  {
    s[i] == UNDERSCORE && s[i + 1] == UNDERSCORE
  }

  function DigitsOnly(s: seq<Byte>): (r: seq<Byte>)
    requires forall i :: 0 <= i < |s| ==> IsDigit(s[i]) || s[i] == UNDERSCORE
    ensures |r| <= |s|
    ensures forall i :: 0 <= i < |r| ==> IsDigit(r[i])
  {
    if s == [] then []
    else (if s[0] == UNDERSCORE then [] else [s[0]]) + DigitsOnly(s[1..])
  }

  function ParseDigits(s: seq<Byte>): Option<nat> {
    if WellFormedDigits(s) then Some(DecimalValue(DigitsOnly(s))) else None
  }

  /** `int(text)` on text that has no surrounding white space left: a
      number needs a digit, and only a leading minus makes it negative. */
  function ParseInt(s: seq<Byte>): (r: Option<int>)
    ensures r.Some? ==> exists i :: 0 <= i < |s| && IsDigit(s[i])
    ensures r.Some? && r.value < 0 ==> s[0] == MINUS
  {
    if s != [] && (s[0] == PLUS || s[0] == MINUS) then
      match ParseDigits(s[1..])
      case None => None
      case Some(v) =>
        assert IsDigit(s[1]);
        var i: int := v; Some(if s[0] == MINUS then -i else i)
    else
      match ParseDigits(s)
      case None => None
      case Some(v) => Some(v)
  }

  /** `parse_message_size(raw)`: `int(raw.decode())`, or None when that
      raises. A size is read only from ASCII text holding a digit, and a
      negative one only from text holding a minus sign. */
  function ParseMessageSize(raw: seq<Byte>): (r: Option<int>)
    ensures r.Some? ==> IsAscii(raw) && exists i :: 0 <= i < |raw| && IsDigit(raw[i])
    ensures r.Some? && r.value < 0 ==> exists i :: 0 <= i < |raw| && raw[i] == MINUS
  {
    if IsAscii(raw) then
      var t := TrimRight(TrimLeft(raw));
      var a := SkipSpaces(raw, 0);
      assert forall j :: 0 <= j < |t| ==> t[j] == raw[a + j];
      ParseInt(t)
    else None
  }

  /** `message_size and message_size < MAX_MESSAGE_SIZE`: None and zero
      are falsy in Python, so the check lets through exactly the sizes
      from 1 to 4095 and every negative size. */
  predicate SizeAccepted(size: Option<int>): (r: bool)
    ensures r <==> size.Some? && (size.value < 0 || 0 < size.value < MAX_MESSAGE_SIZE)
  {
    size.Some? && size.value != 0 && size.value < MAX_MESSAGE_SIZE
  }

  /** Why the receive loop ended. `RecvFailed` is the ValueError that
      `recv` raises for a negative size, caught by the outer `except`. */
  datatype ClientExit = Disconnected | InvalidSize | RecvFailed

  datatype Reception = Reception(bodies: seq<seq<Byte>>, exit: ClientExit)

  function Min(a: nat, b: nat): nat {
    if a < b then a else b
  }

  /** `recv(n)` on a socket whose unread bytes are `unread`: the next
      bytes, at most `n` of them; none once the peer has closed. */
  function Recv(unread: seq<Byte>, n: nat): (r: seq<Byte>)
    ensures |r| == Min(n, |unread|) && r == unread[..|r|]
  {
    unread[..Min(n, |unread|)]
  }

  /** One pass of the receive loop over the socket's unread bytes: either
      the loop stops, or a body was read and `next` is left unread. */
  datatype Step = Stop(exit: ClientExit) | Got(body: seq<Byte>, next: seq<Byte>)

  /** One pass of the loop body: `recv` a header, stop on disconnect,
      parse it, stop on a refused size, `recv` the body, stop on
      disconnect. */
  function ReadFrame(unread: seq<Byte>): (r: Step)
    ensures r.Got? ==> r.body != [] && |r.body| < MAX_MESSAGE_SIZE
    ensures r.Got? ==> |r.body| + |r.next| < |unread|
    ensures r.Got? ==> unread[|unread| - |r.next|..] == r.next
  {
    var header := Recv(unread, HEADER_SIZE);
    if header == [] then Stop(Disconnected)
    else
      var size := ParseMessageSize(header);
      if !SizeAccepted(size) then Stop(InvalidSize)
      else if size.value < 0 then Stop(RecvFailed)
      else
        var body := Recv(unread[|header|..], size.value);
        if body == [] then Stop(Disconnected)
        else Got(body, unread[|header| + |body|..])
  }

  /** What the client reads from a complete stream: the reference
      definition `Receive` is proved against. Every body read is non-empty
      and below `MAX_MESSAGE_SIZE`, and each frame uses up at least two
      bytes of the stream. */
  function Deframe(s: seq<Byte>): (r: Reception)
    ensures forall i :: 0 <= i < |r.bodies| ==> 0 < |r.bodies[i]| < MAX_MESSAGE_SIZE
    ensures 2 * |r.bodies| <= |s|
    decreases |s|
  {
    match ReadFrame(s)
    case Stop(exit) => Reception([], exit)
    case Got(body, next) =>
      var rest := Deframe(next);
      Reception([body] + rest.bodies, rest.exit)
  }

  /** The `while True` loop of the client, until the peer disconnects or
      a size is refused. */
  method Receive(stream: seq<Byte>) returns (r: Reception)
    ensures r == Deframe(stream)
  {
    var unread := stream;
    var bodies: seq<seq<Byte>> := [];
    var exit: ClientExit;
    while true
      invariant Deframe(stream) == Reception(bodies + Deframe(unread).bodies, Deframe(unread).exit)
      decreases |unread|
    {
      var step := ReadFrame(unread);
      if step.Stop? {
        exit := step.exit;
        break;
      }
      bodies := bodies + [step.body];
      unread := step.next;
    }
    r := Reception(bodies, exit);
  }

  /** Every byte of a frame, one frame after the other. */
  function Stream(frames: seq<seq<Byte>>): seq<Byte>
    requires forall i :: 0 <= i < |frames| ==> |frames[i]| < MAX_BODY_LENGTH
  {
    if frames == [] then [] else Wire(frames[0]) + Stream(frames[1..])
  }

  lemma {:induction false} TrimLeftPadding(n: nat, d: seq<Byte>)
    requires d != [] && !IsSpace(d[0])
    ensures TrimLeft(Spaces(n) + d) == d
  {
    if n > 0 {
      assert (Spaces(n) + d)[1..] == Spaces(n - 1) + d;
      TrimLeftPadding(n - 1, d);
    } else {
      assert Spaces(n) + d == d;
    }
  }

  lemma {:induction false} DigitsOnlyOfDigits(s: seq<Byte>)
    requires forall i :: 0 <= i < |s| ==> IsDigit(s[i])
    ensures DigitsOnly(s) == s
  {
    if s != [] {
      DigitsOnlyOfDigits(s[1..]);
    }
  }

  /** The client reads back exactly the length the encoder formatted. */
  lemma HeaderRoundTrip(n: nat)
    requires n < 10000
    ensures ParseMessageSize(Header(n)) == Some(n)
  {
    var d := DecimalDigits(n);
    var h := Header(n);
    assert h == Spaces(HEADER_LENGTH - |d|) + d;
    assert IsAscii(h);
    TrimLeftPadding(HEADER_LENGTH - |d|, d);
    assert TrimRight(d) == d;
    DigitsOnlyOfDigits(d);
    assert WellFormedDigits(d);
    assert ParseDigits(d) == Some(n);
    assert ParseInt(d) == Some(n);
  }

  /** For every length `encode` accepts, the client accepts the header
      exactly when the body is not empty. */
  lemma HeaderAcceptedIffNonEmpty(n: nat)
    requires n < MAX_BODY_LENGTH
    ensures SizeAccepted(ParseMessageSize(Header(n))) <==> n != 0
  {
    HeaderRoundTrip(n);
  }

  /** A header holding a byte that is neither white space, a digit, a
      sign nor an underscore is not a decimal integer: None. */
  lemma NonNumericHeaderRejected(raw: seq<Byte>, k: nat)
    requires k < |raw|
    requires !IsSpace(raw[k]) && !IsDigit(raw[k])
    requires raw[k] != PLUS && raw[k] != MINUS && raw[k] != UNDERSCORE
    ensures ParseMessageSize(raw) == None
  {
    if IsAscii(raw) {
      var l := TrimLeft(raw);
      var t := TrimRight(l);
      var a := |raw| - |l|;
      assert a <= k;
      assert k - a < |t|;
      assert t[k - a] == raw[k];
      if t != [] && (t[0] == PLUS || t[0] == MINUS) {
        assert t[1..][k - a - 1] == raw[k];
        assert !WellFormedDigits(t[1..]);
      } else {
        assert !WellFormedDigits(t);
      }
    }
  }

  /** One well-formed frame at the front of the stream yields its body,
      and reading continues right after it. */
  lemma DeframeFrame(body: seq<Byte>, tail: seq<Byte>)
    requires 0 < |body| < MAX_BODY_LENGTH
    ensures Deframe(Wire(body) + tail) == Reception([body] + Deframe(tail).bodies, Deframe(tail).exit)
  {
    var s := Wire(body) + tail;
    var header := Recv(s, HEADER_SIZE);
    assert header == Header(|body|);
    HeaderRoundTrip(|body|);
    assert Recv(s[HEADER_SIZE..], |body|) == body;
    assert s[HEADER_SIZE + |body|..] == tail;
    assert ReadFrame(s) == Got(body, tail);
  }

  /** Round trip of the whole protocol: the stream of frames of non-empty
      bodies is read back as exactly those bodies, in order, until the
      server closes the connection. */
  lemma {:induction false} ClientReceivesEveryFrame(frames: seq<seq<Byte>>)
    requires forall i :: 0 <= i < |frames| ==> 0 < |frames[i]| < MAX_BODY_LENGTH
    ensures Deframe(Stream(frames)) == Reception(frames, Disconnected)
  {
    if frames != [] {
      ClientReceivesEveryFrame(frames[1..]);
      DeframeFrame(frames[0], Stream(frames[1..]));
      assert [frames[0]] + frames[1..] == frames;
    }
  }

  /** `encode` accepts an empty body, but its frame ends the client's
      receive loop as an invalid size. */
  lemma EmptyFrameEndsReception(tail: seq<Byte>)
    ensures Deframe(Wire([]) + tail) == Reception([], InvalidSize)
  {
    var s := Wire([]) + tail;
    assert s[..HEADER_SIZE] == Header(0);
    HeaderRoundTrip(0);
  }

  /** The size check lets a negative size through (it is truthy and
      below 4096); `recv` then raises, and the client stops. */
  lemma NegativeSizeFailsRecv(tail: seq<Byte>)
    ensures Deframe([SPACE, SPACE, MINUS, ZERO_DIGIT + 1] + tail) == Reception([], RecvFailed)
  {
    var s: seq<Byte> := [SPACE, SPACE, MINUS, ZERO_DIGIT + 1] + tail;
    var header := Recv(s, HEADER_SIZE);
    assert header == [SPACE, SPACE, MINUS, ZERO_DIGIT + 1];
    assert SkipSpaces(header, 2) == 2;
    assert SkipSpaces(header, 0) == 2;
    var t := TrimLeft(header);
    assert t == [MINUS, ZERO_DIGIT + 1];
    assert SkipSpacesBack(t, 2) == 2;
    assert TrimRight(t) == t;
    var digits := t[1..];
    assert WellFormedDigits(digits);
    DigitsOnlyOfDigits(digits);
    assert digits[..0] == [];
    assert DecimalValue(digits) == 1;
    assert ParseInt(t) == Some(-1);
    assert ParseMessageSize(header) == Some(-1);
  }

  /** Whatever the body, the header line 33 of src/message.h sends is its
      first four bytes, and a zero third byte makes it unreadable. Every
      FlatBuffers body under 64 KiB starts with its little-endian root
      offset, whose third byte is zero. */
  lemma AsWrittenHeaderNeverParses(raw: seq<Byte>, length: nat)
    requires length < MAX_BODY_LENGTH && length <= |raw| && HEADER_LENGTH <= |raw|
    requires raw[2] == 0
    ensures ParseMessageSize(BufferAsWritten(raw, length)[..HEADER_LENGTH]) == None
  {
    var header := BufferAsWritten(raw, length)[..HEADER_LENGTH];
    assert header[2] == 0;
    NonNumericHeaderRejected(header, 2);
  }

  /** The header line 33 of src/message.h actually sends is the first
      four bytes of the body. For a FlatBuffers body, which starts with
      its little-endian root offset (here 12), the client cannot read a
      size and stops, where the intended header delivers the body. */
  lemma AsWrittenHeaderUnreadable()
    ensures var raw: seq<Byte> := [12, 0, 0, 0, 8, 0, 12, 0];
      && Deframe(BufferAsWritten(raw, 8)[..HEADER_LENGTH + 8]) == Reception([], InvalidSize)
      && Deframe(Buffer(raw, 8)[..HEADER_LENGTH + 8]) == Reception([raw], Disconnected)
  {
    var raw: seq<Byte> := [12, 0, 0, 0, 8, 0, 12, 0];
    var written := BufferAsWritten(raw, 8)[..HEADER_LENGTH + 8];
    assert written[..HEADER_SIZE] == [12, 0, 0, 0];
    NonNumericHeaderRejected([12, 0, 0, 0], 1);
    assert raw[..8] == raw;
    DeframeFrame(raw, []);
    assert Wire(raw) + [] == Buffer(raw, 8)[..HEADER_LENGTH + 8];
  }
}
