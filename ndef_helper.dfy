/** The NDEF Message TLV codec of `src/tools/NDEFHelper.js` and its byte-argument
    validator. The frame is an NDEF Message TLV of the NFC Forum Type 2 Tag
    Operation specification:
      03 <len>            <payload> FE <zero padding>   when the payload has at most 254 bytes
      03 FF <len16 BE>    <payload> FE <zero padding>   otherwise
    `Encapsulate` and `Clean` are the functions as written; `EncapsulateUnsigned`
    and `Decapsulate` are the evidently intended versions (see the README's
    Findings), and the card session uses those. */
module NdefHelper {
  import opened Common

  const NDEF_TYPE: byte := 0x03
  const EXTENDED_LENGTH: byte := 0xFF
  const TERMINATOR: byte := 0xFE
  /** The largest payload `encapsulate` accepts. */
  const MAX_PAYLOAD: nat := 0xFFFE
  /** The largest payload a one-byte length field holds. */
  const MAX_SHORT_PAYLOAD: nat := 0xFE
  /** The largest value `writeInt16BE` accepts (a signed 16-bit integer). */
  const MAX_INT16: nat := 0x7FFF

  datatype NdefError =
    | MessageTooLarge     // 'Maximal NDEF message size exceeded.'
    | LengthOutOfRange    // the RangeError `writeInt16BE` throws for a value above 0x7FFF
    | UndeclaredBuffer    // the ReferenceError of reading the undeclared `buffer`
    | TruncatedLength     // corrected decoder: the 16-bit length field runs past the end

  /** What `clean` gives back: the "not NDEF" sentinel (`false`) or the payload bytes. */
  datatype Cleaned = NotNdef | Message(payload: seq<byte>)

  // ---------------------------------------------------------------------------
  // Encoding

  /** The TLV type and length fields for a payload of `n` bytes. */
  function Prefix(n: nat): (p: seq<byte>)
    requires n <= MAX_PAYLOAD
    ensures |p| == 2 || |p| == 4
    ensures |p| == 2 <==> n <= MAX_SHORT_PAYLOAD
    ensures p[0] == NDEF_TYPE
    ensures |p| == 2 ==> p[1] == n
    ensures |p| == 4 ==> p[1] == EXTENDED_LENGTH && BigEndian16(p[2], p[3]) == n
  {
    if n > MAX_SHORT_PAYLOAD then [NDEF_TYPE, EXTENDED_LENGTH, n / 256, n % 256]
    else [NDEF_TYPE, n]
  }

  /** The unsigned big-endian value of two bytes. */
  function BigEndian16(hi: byte, lo: byte): nat
  {
    hi as int * 256 + lo as int
  }

  /** The least multiple of `blockSize` that is at least `total`. */
  function PaddedLength(total: nat, blockSize: nat): (m: nat)
    requires blockSize > 0
    ensures m % blockSize == 0
    ensures total <= m < total + blockSize
  {
    var excess := total % blockSize;
    var padding := if excess > 0 then blockSize - excess else 0;
    PaddingCompletesBlock(total, blockSize);
    total + padding
  }

  lemma PaddingCompletesBlock(total: nat, blockSize: nat)
    requires blockSize > 0
    ensures total % blockSize == 0 || (total + (blockSize - total % blockSize)) % blockSize == 0
  {
    var q := total / blockSize;
    var r := total % blockSize;
    assert total == blockSize * q + r;
    if r > 0 {
      assert total + (blockSize - r) == blockSize * (q + 1);
      MultipleModulo(blockSize, q + 1);
    }
  }

  /** A multiple of `b` leaves no remainder. */
  lemma MultipleModulo(b: nat, k: nat)
    requires b > 0
    ensures (b * k) % b == 0
  {
    var x := b * k;
    var q, r := x / b, x % b;
    assert x == b * q + r && 0 <= r < b;
    assert b * (k - q) == r;
    if k - q >= 1 {
      MultiplyMonotone(1, k - q, b);
    } else if k - q <= -1 {
      MultiplyMonotone(1, q - k, b);
    }
  }

  /** No multiple of `blockSize` lies in `[total, PaddedLength(total, blockSize))`. */
  lemma {:induction false} PaddedLengthIsLeast(total: nat, blockSize: nat, k: nat)
    requires blockSize > 0 && k * blockSize >= total
    ensures PaddedLength(total, blockSize) <= k * blockSize
  {
    var m := PaddedLength(total, blockSize);
    var j := m / blockSize;
    assert m == j * blockSize;
    assert j * blockSize < (k + 1) * blockSize;
    MultiplyCancel(j, k + 1, blockSize);
    MultiplyMonotone(j, k, blockSize);
  }

  lemma MultiplyCancel(a: int, b: int, c: nat)
    requires a * c < b * c
    ensures a < b
  {
  }

  lemma MultiplyMonotone(a: int, b: int, c: nat)
    requires a <= b
    ensures a * c <= b * c
  {
  }

  /** The framed message: prefix, payload, terminator, and zero padding up to a
      multiple of `blockSize`. */
  function Frame(data: seq<byte>, blockSize: nat): (f: seq<byte>)
    requires |data| <= MAX_PAYLOAD && blockSize > 0
    ensures var p := Prefix(|data|);
      var total := |p| + |data| + 1;
      && |f| % blockSize == 0
      && total <= |f| < total + blockSize
      && f[..|p|] == p
      && f[|p|..|p| + |data|] == data
      && f[|p| + |data|] == TERMINATOR
      && forall i :: total <= i < |f| ==> f[i] == 0
  {
    var p := Prefix(|data|);
    var framed := p + data + [TERMINATOR];
    var f := framed + Zeros(PaddedLength(|framed|, blockSize) - |framed|);
    assert f[..|framed|] == framed;
    assert f[..|p|] == p;
    assert forall i :: |p| <= i < |p| + |data| ==> f[i] == data[i - |p|];
    f
  }

  /** `NDEFHelper.encapsulate` as written: besides the size guard, the extended
      length is written with `writeInt16BE`, which throws for lengths above 0x7FFF. */
  function Encapsulate(data: seq<byte>, blockSize: nat): (r: Result<seq<byte>, NdefError>)
    requires blockSize > 0
    ensures |data| > MAX_PAYLOAD ==> r == Failure(MessageTooLarge)
    ensures MAX_INT16 < |data| <= MAX_PAYLOAD ==> r == Failure(LengthOutOfRange)
    ensures r.Success? <==> |data| <= MAX_INT16
    ensures r.Success? ==> r.value == Frame(data, blockSize)
    ensures r.Success? ==> |r.value| % blockSize == 0 && |r.value| > 0 && r.value[0] == NDEF_TYPE
  {
    if |data| > MAX_PAYLOAD then Failure(MessageTooLarge)
    else if |data| > MAX_INT16 then Failure(LengthOutOfRange)
    else Success(Frame(data, blockSize))
  }

  /** The intended encoder: the 16-bit length written unsigned, so that every
      payload up to `MAX_PAYLOAD` bytes is framed. */
  function EncapsulateUnsigned(data: seq<byte>, blockSize: nat): (r: Result<seq<byte>, NdefError>)
    requires blockSize > 0
    ensures r.Failure? <==> |data| > MAX_PAYLOAD
    ensures r.Failure? ==> r.error == MessageTooLarge
    ensures r.Success? ==> r.value == Frame(data, blockSize)
    ensures r.Success? ==> |r.value| % blockSize == 0 && |r.value| > 0 && r.value[0] == NDEF_TYPE
    ensures Encapsulate(data, blockSize).Success? ==> r == Encapsulate(data, blockSize)
  {
    if |data| > MAX_PAYLOAD then Failure(MessageTooLarge)
    else Success(Frame(data, blockSize))
  }

  // ---------------------------------------------------------------------------
  // Decoding

  /** `NDEFHelper.clean` as written. It tests for 0xFE where the encoder writes the
      extended-length marker 0xFF, and its extended branch reads the undeclared
      `buffer`, so that branch always throws. An absent `data[1]` makes the slice
      end NaN, which `slice` treats as 0. */
  function Clean(data: seq<byte>): (r: Result<Cleaned, NdefError>)
    ensures r == Success(NotNdef) <==> !IsNdef(data)
    ensures r.Failure? <==> IsNdef(data) && |data| >= 2 && data[1] == TERMINATOR
    ensures r.Failure? ==> r.error == UndeclaredBuffer
    ensures data == [NDEF_TYPE] ==> r == Success(Message([]))
    ensures r.Success? && r.value.Message? && |data| >= 2 ==>
      var n := Min(data[1], |data| - 2);
      r.value.payload == data[2..2 + n]
  {
    if |data| == 0 || data[0] != NDEF_TYPE then Success(NotNdef)
    else if |data| < 2 then Success(Message([]))
    else if data[1] == TERMINATOR then Failure(UndeclaredBuffer)
    else Success(Message(Slice(data, 2, 2 + data[1] as int)))
  }

  /** The intended decoder: the extended length is announced by 0xFF and read,
      big-endian and unsigned, from the two bytes that follow it. */
  function Decapsulate(data: seq<byte>): (r: Result<Cleaned, NdefError>)
    ensures r == Success(NotNdef) <==> !IsNdef(data)
    ensures r.Failure? <==> IsNdef(data) && 2 <= |data| < 4 && data[1] == EXTENDED_LENGTH
    ensures r.Failure? ==> r.error == TruncatedLength
    ensures data == [NDEF_TYPE] ==> r == Success(Message([]))
    ensures r.Success? && r.value.Message? && |data| >= 2 && data[1] != EXTENDED_LENGTH ==>
      r.value.payload == data[2..2 + Min(data[1], |data| - 2)]
    ensures r.Success? && r.value.Message? && |data| >= 4 && data[1] == EXTENDED_LENGTH ==>
      r.value.payload == data[4..4 + Min(BigEndian16(data[2], data[3]), |data| - 4)]
  {
    if |data| == 0 || data[0] != NDEF_TYPE then Success(NotNdef)
    else if |data| < 2 then Success(Message([]))
    else if data[1] == EXTENDED_LENGTH then
      if |data| < 4 then Failure(TruncatedLength)
      else Success(Message(Slice(data, 4, 4 + BigEndian16(data[2], data[3]))))
    else Success(Message(Slice(data, 2, 2 + data[1] as int)))
  }

  /** `NDEFHelper.isNdef`: a probe of the first byte only. */
  predicate IsNdef(data: seq<byte>)
  {
    |data| > 0 && data[0] == NDEF_TYPE
  }

  // ---------------------------------------------------------------------------
  // Properties of the codec

  /** The probe decides exactly when `clean` gives up with its sentinel, and
      looks at nothing but the first byte. */
  lemma IsNdefIsFirstByteProbe(d: seq<byte>, e: seq<byte>)
    requires |d| > 0 && |e| > 0 && d[0] == e[0]
    ensures IsNdef(d) == IsNdef(e)
    ensures IsNdef(d) <==> Clean(d) != Success(NotNdef)
  {
  }

  /** Every frame is recognised as NDEF. */
  lemma FrameIsNdef(data: seq<byte>, blockSize: nat)
    requires |data| <= MAX_PAYLOAD && blockSize > 0
    ensures IsNdef(Frame(data, blockSize))
  {
    var p := Prefix(|data|);
    assert Frame(data, blockSize)[..|p|] == p;
  }

  /** The round trip of the code as written holds for payloads of at most 253
      bytes, whatever bytes follow the frame. */
  lemma {:induction false} CleanRoundTrip(data: seq<byte>, blockSize: nat, rest: seq<byte>)
    requires |data| < MAX_SHORT_PAYLOAD && blockSize > 0
    ensures Encapsulate(data, blockSize).Success?
    ensures Clean(Encapsulate(data, blockSize).value + rest) == Success(Message(data))
  {
    var f := Frame(data, blockSize);
    var g := f + rest;
    assert f[..2] == Prefix(|data|) == [NDEF_TYPE, |data|];
    assert g[..|f|] == f;
    assert g[0] == NDEF_TYPE && g[1] == |data|;
    assert g[2..2 + |data|] == f[2..2 + |data|] == data;
  }

  /** A 254-byte payload gets the short length byte 0xFE, which the decoder as
      written takes for its extended marker: it throws. */
  lemma {:induction false} CleanThrowsAtLength254(data: seq<byte>, blockSize: nat)
    requires |data| == MAX_SHORT_PAYLOAD && blockSize > 0
    ensures Encapsulate(data, blockSize).Success?
    ensures Clean(Encapsulate(data, blockSize).value) == Failure(UndeclaredBuffer)
  {
    var f := Frame(data, blockSize);
    assert f[..2] == Prefix(|data|);
    assert f[0] == NDEF_TYPE && f[1] == TERMINATOR;
  }

  /** From 255 bytes on the encoder writes the 0xFF marker, which the decoder as
      written reads as a one-byte length of 255: it returns the two length bytes
      followed by the first 253 payload bytes, so no payload longer than 255
      bytes survives the round trip. */
  lemma {:induction false} CleanMisreadsExtendedFrames(data: seq<byte>, blockSize: nat)
    requires MAX_SHORT_PAYLOAD < |data| <= MAX_PAYLOAD && blockSize > 0
    ensures Clean(Frame(data, blockSize)) == Success(Message([|data| / 256, |data| % 256] + data[..253]))
    ensures |data| > 255 ==> Clean(Frame(data, blockSize)) != Success(Message(data))
  {
    var f := Frame(data, blockSize);
    var p := Prefix(|data|);
    assert f[..4] == p;
    assert f[0] == NDEF_TYPE && f[1] == EXTENDED_LENGTH && f[2] == |data| / 256 && f[3] == |data| % 256;
    assert f[4..4 + |data|] == data;
    var got := f[2..257];
    assert got == [f[2], f[3]] + f[4..257];
    assert f[4..257] == data[..253];
  }

  /** A 255-byte payload that does not start with the bytes 00 FF is misread too. */
  lemma CleanMisreads255(data: seq<byte>, blockSize: nat)
    requires |data| == 255 && !(data[0] == 0 && data[1] == 0xFF) && blockSize > 0
    ensures Clean(Frame(data, blockSize)) != Success(Message(data))
  {
    CleanMisreadsExtendedFrames(data, blockSize);
    var m := [|data| / 256, |data| % 256] + data[..253];
    assert m[0] == 0 && m[1] == 255;
  }

  /** The bytes 00 FF 00 FF ... : 00 at even indices, FF at odd ones. */
  predicate Alternating(data: seq<byte>)
  {
    forall k :: 0 <= k < |data| ==> data[k] == if k % 2 == 0 then 0 else 0xFF
  }

  /** Of all 255-byte payloads, the code as written round-trips exactly one:
      00 FF 00 FF ... 00, which reads back as its own two length bytes followed
      by its first 253 bytes. */
  lemma Clean255RoundTripsOnlyAlternating(data: seq<byte>, blockSize: nat)
    requires |data| == 255 && blockSize > 0
    ensures Clean(Frame(data, blockSize)) == Success(Message(data)) <==> Alternating(data)
  {
    CleanMisreadsExtendedFrames(data, blockSize);
    var m := [|data| / 256, |data| % 256] + data[..253];
    assert m[0] == 0 && m[1] == 255;
    if m == data {
      AlternatingFromShift(data, 0);
    }
    if Alternating(data) {
      assert forall k :: 2 <= k < 255 ==> m[k] == data[k - 2];
      assert forall k :: 0 <= k < 255 ==> m[k] == data[k];
    }
  }

  /** A sequence that starts 00 FF and repeats itself two places on alternates
      from index `k` on, given that it does before `k`. */
  lemma {:induction false} AlternatingFromShift(data: seq<byte>, k: nat)
    requires |data| >= 2 && data[0] == 0 && data[1] == 0xFF
    requires forall i :: 2 <= i < |data| ==> data[i] == data[i - 2]
    requires k <= |data|
    requires forall i :: 0 <= i < k ==> data[i] == if i % 2 == 0 then 0 else 0xFF
    ensures Alternating(data)
    decreases |data| - k
  {
    if k < |data| {
      if k >= 2 {
        assert data[k] == data[k - 2];
        assert (k - 2) % 2 == k % 2;
      }
      AlternatingFromShift(data, k + 1);
    }
  }

  /** The intended decoder inverts the intended encoder for every accepted
      payload, whatever bytes follow the frame. */
  lemma {:induction false} DecapsulateRoundTrip(data: seq<byte>, blockSize: nat, rest: seq<byte>)
    requires |data| <= MAX_PAYLOAD && blockSize > 0
    ensures EncapsulateUnsigned(data, blockSize).Success?
    ensures Decapsulate(EncapsulateUnsigned(data, blockSize).value + rest) == Success(Message(data))
  {
    var f := Frame(data, blockSize);
    var g := f + rest;
    var p := Prefix(|data|);
    assert f[..|p|] == p;
    assert g[..|f|] == f;
    if |p| == 2 {
      assert g[0] == NDEF_TYPE && g[1] == |data|;
      assert g[2..2 + |data|] == f[2..2 + |data|] == data;
    } else {
      assert g[0] == NDEF_TYPE && g[1] == EXTENDED_LENGTH;
      assert BigEndian16(g[2], g[3]) == |data|;
      assert g[4..4 + |data|] == f[4..4 + |data|] == data;
    }
  }

  // ---------------------------------------------------------------------------
  // Password and PACK arguments

  /** The argument kinds `parseBytes` distinguishes. */
  datatype ByteArg = BufferArg(bytes: seq<byte>) | StringArg(text: string) | OtherArg

  datatype ParseError =
    | NotBufferOrHex(name: string)              // '<name> must an instance of Buffer or a HEX string.'
    | WrongByteLength(name: string, length: int) // '<name> must be <length> bytes long.'
    | WrongHexLength(name: string, chars: int)   // '<name> must be a <2*length> char HEX string.'

  predicate IsHexDigit(c: char)
  {
    ('0' <= c <= '9') || ('a' <= c <= 'f') || ('A' <= c <= 'F')
  }

  function HexValue(c: char): (v: nat)
    requires IsHexDigit(c)
    ensures v < 16
  {
    if '0' <= c <= '9' then c as int - '0' as int
    else if 'a' <= c <= 'f' then c as int - 'a' as int + 10
    else c as int - 'A' as int + 10
  }

  /** The lower-case hex digit of a value below 16. */
  function HexDigit(v: nat): (c: char)
    requires v < 16
    ensures IsHexDigit(c) && HexValue(c) == v
  {
    if v < 10 then ('0' as int + v) as char else ('a' as int + v - 10) as char
  }

  /** `Buffer.from(text, 'hex')`: decodes digit pairs from the front and stops,
      silently, at the first pair holding a non-hex character; an odd last
      character is dropped. */
  function HexDecode(text: string): (b: seq<byte>)
    ensures |b| <= |text| / 2
    decreases |text|
  {
    if |text| < 2 || !IsHexDigit(text[0]) || !IsHexDigit(text[1]) then []
    else [HexValue(text[0]) * 16 + HexValue(text[1])] + HexDecode(text[2..])
  }

  /** Lower-case hex text of a byte sequence. */
  function HexEncode(b: seq<byte>): (text: string)
    ensures |text| == 2 * |b|
  {
    if b == [] then [] else [HexDigit(b[0] / 16), HexDigit(b[0] % 16)] + HexEncode(b[1..])
  }

  lemma {:induction false} HexRoundTrip(b: seq<byte>)
    ensures HexDecode(HexEncode(b)) == b
  {
    if b != [] {
      var t := HexEncode(b);
      assert t[2..] == HexEncode(b[1..]);
      HexRoundTrip(b[1..]);
      assert [b[0]] + b[1..] == b;
    }
  }

  /** Text made only of hex digits decodes completely. */
  lemma {:induction false} HexDecodeComplete(text: string)
    requires |text| % 2 == 0
    requires forall i :: 0 <= i < |text| ==> IsHexDigit(text[i])
    ensures |HexDecode(text)| == |text| / 2
  {
    if |text| >= 2 {
      HexDecodeComplete(text[2..]);
    }
  }

  /** `NDEFHelper.parseBytes(name, data, length)`: a Buffer is returned unchanged
      when it holds exactly `length` bytes; a string must hold exactly `2 * length`
      characters and is then hex-decoded; anything else is refused. */
  function ParseBytes(name: string, arg: ByteArg, length: int): (r: Result<seq<byte>, ParseError>)
    ensures arg.BufferArg? ==> (r.Success? <==> |arg.bytes| == length)
    ensures arg.BufferArg? && r.Success? ==> r.value == arg.bytes
    ensures arg.BufferArg? && r.Failure? ==> r.error == WrongByteLength(name, length)
    ensures arg.StringArg? ==> (r.Success? <==> |arg.text| == 2 * length)
    ensures arg.StringArg? && r.Success? ==> r.value == HexDecode(arg.text) && |r.value| <= length
    ensures arg.StringArg? && r.Failure? ==> r.error == WrongHexLength(name, 2 * length)
    ensures arg.OtherArg? ==> r == Failure(NotBufferOrHex(name))
  {
    match arg
    case BufferArg(bytes) =>
      if |bytes| != length then Failure(WrongByteLength(name, length)) else Success(bytes)
    case StringArg(text) =>
      if |text| != length * 2 then Failure(WrongHexLength(name, length * 2)) else Success(HexDecode(text))
    case OtherArg => Failure(NotBufferOrHex(name))
  }

  /** Hex text of the right length made only of hex digits yields exactly `length`
      bytes, and the hex text of a value parses back to that value. */
  lemma ParseBytesHex(name: string, text: string, length: nat)
    requires |text| == 2 * length
    requires forall i :: 0 <= i < |text| ==> IsHexDigit(text[i])
    ensures ParseBytes(name, StringArg(text), length).Success?
    ensures |ParseBytes(name, StringArg(text), length).value| == length
  {
    HexDecodeComplete(text);
  }

  lemma ParseBytesHexRoundTrip(name: string, b: seq<byte>)
    ensures ParseBytes(name, StringArg(HexEncode(b)), |b|) == Success(b)
  {
    HexRoundTrip(b);
  }
}
