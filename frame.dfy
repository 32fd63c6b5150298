/** The wire frame of src/message.h: a 4-byte ASCII decimal length header
    followed by the body, kept in a fixed buffer of HEADER_LENGTH +
    MAX_BODY_LENGTH bytes. */
module Frame {

  type Byte = b: nat | b < 256

  const HEADER_LENGTH: nat := 4
  const MAX_BODY_LENGTH: nat := 1024
  /** Size of the fixed `data_` buffer of every message. */
  const BUFFER_LENGTH: nat := HEADER_LENGTH + MAX_BODY_LENGTH

  const SPACE: Byte := 32
  const ZERO_DIGIT: Byte := 48

  predicate IsDigit(b: Byte) {
    ZERO_DIGIT <= b <= ZERO_DIGIT + 9
  }

  function Zeros(n: nat): (r: seq<Byte>)
    ensures |r| == n && forall i :: 0 <= i < n ==> r[i] == 0
  {
    seq(n, _ => 0)
  }

  function Spaces(n: nat): (r: seq<Byte>)
    ensures |r| == n && forall i :: 0 <= i < n ==> r[i] == SPACE
  {
    seq(n, _ => SPACE)
  }

  /** Value of a string of ASCII digits, most significant first. */
  function DecimalValue(d: seq<Byte>): nat
    requires forall i :: 0 <= i < |d| ==> IsDigit(d[i])
  {
    if d == [] then 0
    else
      assert IsDigit(d[|d| - 1]);
      DecimalValue(d[..|d| - 1]) * 10 + (d[|d| - 1] - ZERO_DIGIT)
  }

  /** The digits `%d` prints for a non-negative number: no leading zeros,
      at least one digit, and they read back as `n`. */
  function DecimalDigits(n: nat): (r: seq<Byte>)
    ensures 1 <= |r|
    ensures forall i :: 0 <= i < |r| ==> IsDigit(r[i])
    ensures DecimalValue(r) == n
    ensures |r| > 1 ==> r[0] != ZERO_DIGIT
    ensures n < 10 ==> |r| == 1
    ensures n < 100 ==> |r| <= 2
    ensures n < 1000 ==> |r| <= 3
    ensures n < 10000 ==> |r| <= 4
  {
    if n < 10 then [ZERO_DIGIT + n]
    else
      var r := DecimalDigits(n / 10) + [ZERO_DIGIT + n % 10];
      assert r[..|r| - 1] == DecimalDigits(n / 10);
      r
  }

  /** What `snprintf(header, 5, "%4d", length)` leaves in the header: the
      decimal digits of `n`, right-aligned and space-padded to width 4. */
  function Header(n: nat): (r: seq<Byte>)
    requires n < 10000
    ensures |r| == HEADER_LENGTH
    ensures IsDigit(r[HEADER_LENGTH - 1])
    ensures forall i :: 0 <= i < |r| ==> r[i] == SPACE || IsDigit(r[i])
    ensures forall i, j :: 0 <= i < j < HEADER_LENGTH && IsDigit(r[i]) ==> IsDigit(r[j])
  {
    var d := DecimalDigits(n);
    Spaces(HEADER_LENGTH - |d|) + d
  }

  /** The bytes a subscriber writes for a message: `data()[0 .. size())`. */
  function Wire(body: seq<Byte>): (r: seq<Byte>)
    requires |body| < MAX_BODY_LENGTH
    ensures |r| == HEADER_LENGTH + |body|
    ensures r[..HEADER_LENGTH] == Header(|body|) && r[HEADER_LENGTH..] == body
  {
    Header(|body|) + body
  }

  /** The intended content of `data_` after `encode(raw, length)`: header,
      the first `length` bytes of `raw`, and the zeros left by the
      constructor's memset. */
  function Buffer(raw: seq<Byte>, length: nat): (r: seq<Byte>)
    requires length < MAX_BODY_LENGTH && length <= |raw|
    ensures |r| == BUFFER_LENGTH
    ensures r[..HEADER_LENGTH] == Header(length)
    ensures r[HEADER_LENGTH..HEADER_LENGTH + length] == raw[..length]
    ensures r[..HEADER_LENGTH + length] == Wire(raw[..length])
    ensures forall i :: HEADER_LENGTH + length <= i < BUFFER_LENGTH ==> r[i] == 0
  {
    var r := Wire(raw[..length]) + Zeros(MAX_BODY_LENGTH - length);
    assert r[..HEADER_LENGTH + length] == Wire(raw[..length]);
    r
  }

  /** `data_` as src/message.h:33 actually fills it: the header is
      overwritten with the first four bytes of `raw` (which memcpy reads
      whatever `length` is). */
  function BufferAsWritten(raw: seq<Byte>, length: nat): (r: seq<Byte>)
    requires length < MAX_BODY_LENGTH && length <= |raw| && HEADER_LENGTH <= |raw|
    ensures |r| == BUFFER_LENGTH
    ensures r[..HEADER_LENGTH] == raw[..HEADER_LENGTH]
    ensures r[HEADER_LENGTH..HEADER_LENGTH + length] == raw[..length]
  {
    raw[..HEADER_LENGTH] + raw[..length] + Zeros(MAX_BODY_LENGTH - length)
  }

  /** `message`: a fixed buffer and the length of the body stored in it. */
  class Message {
    const data: array<Byte>
    var bodyLength: nat

    ghost predicate Valid()
      reads this
    {
      data.Length == BUFFER_LENGTH && bodyLength < MAX_BODY_LENGTH
    }

    /** `message()`: an empty body in an all-zero buffer. */
    constructor ()
      ensures Valid() && fresh(data)
      ensures bodyLength == 0
      ensures data[..] == Zeros(BUFFER_LENGTH)
    {
      data := new Byte[BUFFER_LENGTH](_ => 0);
      bodyLength := 0;
    }

    /** `encode(raw, length)`: no message (a null pointer) unless
        `length < MAX_BODY_LENGTH`; otherwise a fresh message holding the
        header and the body. Nothing is ever truncated. */
    static method Encode(raw: seq<Byte>, length: nat) returns (m: Message?)
      requires length < MAX_BODY_LENGTH ==> length <= |raw|
      ensures (m != null) <==> length < MAX_BODY_LENGTH
      ensures m != null ==> fresh(m) && fresh(m.data) && m.Valid()
      ensures m != null ==> m.bodyLength == length && m.data[..] == Buffer(raw, length)
    {
      m := null;
      if length < MAX_BODY_LENGTH {
        m := new Message();
        m.bodyLength := length;
        var header := Header(length);
        CopyInto(m.data, 0, header);
        CopyInto(m.data, HEADER_LENGTH, raw[..length]);
        assert m.data[..] == header + raw[..length] + Zeros(MAX_BODY_LENGTH - length);
      }
    }

    /** `data()`: the whole buffer. */
    function Data(): (r: seq<Byte>)
      reads this, data
      requires Valid()
      ensures |r| == BUFFER_LENGTH
    {
      data[..]
    }

    /** `body()`: the buffer from the end of the header on; its first
        `BodyLength()` bytes are the body. */
    function Body(): (r: seq<Byte>)
      reads this, data
      requires Valid()
      ensures |r| == MAX_BODY_LENGTH && Data() == Data()[..HEADER_LENGTH] + r
    {
      data[HEADER_LENGTH..]
    }

    function BodyLength(): (r: nat)
      reads this
      requires Valid()
      ensures r < MAX_BODY_LENGTH
    {
      bodyLength
    }

    /** `size()`: how many bytes of the buffer go on the wire; always
        inside the buffer. */
    function Size(): (r: nat)
      reads this
      requires Valid()
      ensures HEADER_LENGTH <= r <= data.Length
      ensures r - HEADER_LENGTH == BodyLength()
    {
      bodyLength + HEADER_LENGTH
    }
  }

  /** memcpy of `src` into `dst` at offset `at`. */
  method CopyInto(dst: array<Byte>, at: nat, src: seq<Byte>)
    requires at + |src| <= dst.Length
    modifies dst
    ensures dst[..] == old(dst[..at]) + src + old(dst[at + |src|..])
  {
    var i := 0;
    while i < |src|
      invariant 0 <= i <= |src|
      invariant dst[..at] == old(dst[..at])
      invariant dst[at..at + i] == src[..i]
      invariant dst[at + i..] == old(dst[at + i..])
    {
      dst[at + i] := src[i];
      i := i + 1;
    }
    assert dst[..] == dst[..at] + dst[at..at + |src|] + dst[at + |src|..];
  }
}
