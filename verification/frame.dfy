/**
  Length-prefixed framing of the websocket payloads: `encode_frame` and
  `decode_frame` (whatsapp-util/src/binary/codec.rs) and their older twins
  `message::codec::encode` and `BinaryMessage::new` (whatsapp-util/src/message.rs,
  whatsapp-util/src/message/codec.rs), which do the same thing byte for byte.

  As written, the encoder puts a six-byte header in front of the data
  (`write_i32(len >> 16)` then `write_i16(len & 0xFFFF)`), while the decoder
  reads a three-byte header whose first byte it masks away. The corrected
  revision writes and reads the three-byte, 24-bit big-endian length that the
  decoder's shape asks for.
 */
module Frame {
  import opened Bytes
  import opened Errors
  import opened Revision
  import opened Seqs
  import opened Bits
  import Decoder

  /** `PROLOGUE`, sent once in front of the first frame of a connection. */
  const PROLOGUE: seq<byte> := [87, 65, 5, 2]

  const U24_LIMIT: nat := 0x100_0000
  const U48_LIMIT: nat := 0x1_0000_0000_0000

  function Prologue(intro: bool): seq<byte> {
    if intro then PROLOGUE else []
  }

  /** Number of header bytes in front of a frame's data. */
  function HeaderSize(rev: Revision): nat {
    match rev
    case AsWritten => 6
    case Corrected => 3
  }

  /**
    The length header. As written: the 32-bit field `len >> 16` and the 16-bit
    field `len & 0xFFFF`, both big-endian, which together spell the length in
    48 bits. Corrected: the length in 24 bits.
   */
  function Header(rev: Revision, n: nat): (h: seq<byte>)
    ensures |h| == HeaderSize(rev)
  {
    match rev
    case AsWritten => BigEndian(n / 0x1_0000, 4) + BigEndian(n % 0x1_0000, 2)
    case Corrected => BigEndian(n, 3)
  }

  /** Read as one big-endian number, the header is the length, provided it fits. */
  lemma HeaderValue(rev: Revision, n: nat)
    ensures rev == AsWritten && n < U48_LIMIT ==> FromBigEndian(Header(rev, n)) == n
    ensures rev == Corrected && n < U24_LIMIT ==> FromBigEndian(Header(rev, n)) == n
  {
    match rev
    case AsWritten =>
      if n < U48_LIMIT {
        SixByteValue(n, n / 0x1_0000, n % 0x1_0000);
      }
    case Corrected =>
      if n < U24_LIMIT {
        BigEndianRoundTrip(n, 3);
      }
  }

  lemma SixByteValue(n: nat, high: nat, low: nat)
    requires n < U48_LIMIT && high == n / 0x1_0000 && low == n % 0x1_0000
    ensures FromBigEndian(BigEndian(high, 4) + BigEndian(low, 2)) == n
  {
    BigEndianRoundTrip(high, 4);
    BigEndianRoundTrip(low, 2);
    FromBigEndianAppend(BigEndian(high, 4), BigEndian(low, 2));
    assert Pow256(2) == 0x1_0000;
  }

  /**
    `encode_frame(intro, data)`: the prologue when `intro`, the length header,
    then the data unchanged. The Rust function returns a `Result` that is
    always `Ok`.
   */
  function EncodeFrame(rev: Revision, intro: bool, data: seq<byte>): (r: seq<byte>)
    ensures |r| == |Prologue(intro)| + HeaderSize(rev) + |data|
    ensures intro ==> r[..4] == PROLOGUE
    ensures r[|r| - |data|..] == data
  {
    Prologue(intro) + Header(rev, |data|) + data
  }

  /**
    `message::codec::encode`: the handshake message is serialised first
    (`write_to_bytes`, given here as its outcome); a serialisation failure is
    returned before any byte is produced, otherwise the bytes are framed as
    `encode_frame` frames them.
   */
  function EncodeMessage(rev: Revision, intro: bool, serialised: Result<seq<byte>>): (r: Result<seq<byte>>)
    ensures serialised.Err? ==> r == Err(serialised.error)
    ensures serialised.Ok? ==> r.Ok? && |r.value| == |Prologue(intro)| + HeaderSize(rev) + |serialised.value|
    ensures serialised.Ok? ==> r.value[|r.value| - |serialised.value|..] == serialised.value
  {
    var data :- serialised;
    Ok(EncodeFrame(rev, intro, data))
  }

  /**
    `decode_length` from three header bytes. As written,
    `read_u8() as i32 & 0xFF << 16 as i32 | read_u16() as i32` groups as
    `(b0 & (0xFF << 16)) | u16(b1, b2)`: the first byte is read and dropped.
    Corrected: `((b0 & 0xFF) << 16) | u16(b1, b2)`.
   */
  function DecodeLength(rev: Revision, b0: byte, b1: byte, b2: byte): int {
    match rev
    case AsWritten => AsI32(Or(And(b0, Shl(0xFF, 16)), U16(b1, b2)))
    case Corrected => AsI32(Or(Shl(And(b0, 0xFF), 16), U16(b1, b2)))
  }

  /**
    The value `decode_length` computes, in plain arithmetic: `LengthNeverNegative`
    shows it equal to `DecodeLength`, and the loop below is stated with it.
   */
  function HeaderLength(rev: Revision, b0: byte, b1: byte, b2: byte): nat {
    match rev
    case AsWritten => U16(b1, b2)
    case Corrected => b0 * 0x1_0000 + U16(b1, b2)
  }

  /**
    The frames read so far and the bytes left in the buffer: the `decoded` and
    `raw` fields of `BinaryMessage`, with `raw` reduced to its unread part.
   */
  datatype Frames = Frames(decoded: seq<seq<byte>>, unread: seq<byte>)

  /**
    The loop of `decode_frame` and `BinaryMessage::new`: while at least three
    bytes are unread, read a length and then that many bytes as one frame. A
    frame longer than what is left panics in `read_bytes`. The length is never
    negative (`LengthNeverNegative`), so the loop's `continue` branch is dead
    and left out.
   */
  function ReadFrames(rev: Revision, b: seq<byte>): (r: Result<Frames>)
    ensures r.Ok? ==> |r.value.unread| < 3 && |r.value.unread| <= |b|
    ensures r.Err? ==> r.error == Decoder.ReadPastEnd
    decreases |b|
  {
    if |b| < 3 then Ok(Frames([], b))
    else
      var length := HeaderLength(rev, b[0], b[1], b[2]);
      if |b| - 3 < length then Err(Decoder.ReadPastEnd)
      else
        var tail :- ReadFrames(rev, b[3 + length..]);
        Ok(Frames([b[3..3 + length]] + tail.decoded, tail.unread))
  }

  /** What the loop leaves unread is the end of the buffer: frames are read strictly front to back. */
  lemma {:induction false} UnreadIsSuffix(rev: Revision, b: seq<byte>)
    ensures ReadFrames(rev, b).Ok? ==> ReadFrames(rev, b).value.unread == b[|b| - |ReadFrames(rev, b).value.unread|..]
    decreases |b|
  {
    if |b| >= 3 {
      var length := HeaderLength(rev, b[0], b[1], b[2]);
      if length <= |b| - 3 {
        UnreadIsSuffix(rev, b[3 + length..]);
        ReadStep(rev, b, length);
        if ReadFrames(rev, b).Ok? {
          SuffixOfSuffix(b, 3 + length, ReadFrames(rev, b).value.unread);
        }
      }
    }
  }

  lemma SuffixOfSuffix(b: seq<byte>, k: nat, u: seq<byte>)
    requires k <= |b| && |u| <= |b| - k && u == b[k..][|b| - k - |u|..]
    ensures u == b[|b| - |u|..]
  {
  }

  /** `decode_frame`, and `message::codec::decode`: the frames, dropping the unread tail. */
  function DecodeFrame(rev: Revision, b: seq<byte>): (r: Result<seq<seq<byte>>>)
    ensures r.Ok? <==> ReadFrames(rev, b).Ok?
    ensures |b| < 3 ==> r == Ok([])
  {
    var frames :- ReadFrames(rev, b);
    Ok(frames.decoded)
  }

  // ---------------------------------------------------------------------
  // What the decoder reads

  /**
    The length read from a header is never negative, so the `continue` branch
    of the loop is dead. As written it is the last two bytes alone; corrected
    it is all three, big-endian.
   */
  lemma LengthNeverNegative(rev: Revision, b0: byte, b1: byte, b2: byte)
    ensures DecodeLength(rev, b0, b1, b2) >= 0
    ensures rev == AsWritten ==> DecodeLength(rev, b0, b1, b2) == U16(b1, b2)
    ensures rev == Corrected ==> DecodeLength(rev, b0, b1, b2) == b0 * 0x1_0000 + U16(b1, b2)
    ensures DecodeLength(rev, b0, b1, b2) == HeaderLength(rev, b0, b1, b2)
  {
    match rev
    case AsWritten => AsWrittenLength(b0, b1, b2);
    case Corrected => CorrectedLength(b0, b1, b2);
  }

  lemma AsWrittenLength(b0: byte, b1: byte, b2: byte)
    ensures DecodeLength(AsWritten, b0, b1, b2) == U16(b1, b2)
  {
    Pow2Bytes();
    AndDisjoint(b0, 0xFF, 16);
    assert And(b0, Shl(0xFF, 16)) == 0;
    assert Or(0, U16(b1, b2)) == U16(b1, b2);
  }

  lemma CorrectedLength(b0: byte, b1: byte, b2: byte)
    ensures DecodeLength(Corrected, b0, b1, b2) == b0 * 0x1_0000 + U16(b1, b2)
  {
    Pow2Bytes();
    AndLowMask(b0, 8);
    OrDisjoint(b0, U16(b1, b2), 16);
  }

  /** One loop iteration: a header of length `n`, with at least `n` bytes after it. */
  lemma ReadStep(rev: Revision, b: seq<byte>, n: nat)
    requires |b| >= 3 + n && HeaderLength(rev, b[0], b[1], b[2]) == n
    ensures ReadFrames(rev, b).Ok? == ReadFrames(rev, b[3 + n..]).Ok?
    ensures ReadFrames(rev, b[3 + n..]).Ok? ==>
      ReadFrames(rev, b).value
      == Frames([b[3..3 + n]] + ReadFrames(rev, b[3 + n..]).value.decoded, ReadFrames(rev, b[3 + n..]).value.unread)
  {
    var tail := ReadFrames(rev, b[3 + n..]);
    if tail.Ok? {
      assert ReadFrames(rev, b) == Ok(Frames([b[3..3 + n]] + tail.value.decoded, tail.value.unread));
    } else {
      assert ReadFrames(rev, b) == Err(tail.error);
    }
  }

  lemma RecordLayout(x: byte, hi: byte, lo: byte, payload: seq<byte>, rest: seq<byte>, b: seq<byte>)
    requires b == [x, hi, lo] + payload + rest
    ensures |b| >= 3 + |payload| && b[0] == x && b[1] == hi && b[2] == lo
    ensures b[3..3 + |payload|] == payload && b[3 + |payload|..] == rest
  {
    assert b[3..3 + |payload|] == payload;
    assert b[3 + |payload|..] == rest;
  }

  /**
    One frame record: three header bytes whose decoded length is that of the
    payload, then the payload. The decoder returns the payload and carries on
    after it.
   */
  lemma ReadRecord(rev: Revision, x: byte, hi: byte, lo: byte, payload: seq<byte>, rest: seq<byte>)
    requires HeaderLength(rev, x, hi, lo) == |payload|
    ensures ReadFrames(rev, [x, hi, lo] + payload + rest).Ok? == ReadFrames(rev, rest).Ok?
    ensures ReadFrames(rev, rest).Ok? ==>
      ReadFrames(rev, [x, hi, lo] + payload + rest).value
      == Frames([payload] + ReadFrames(rev, rest).value.decoded, ReadFrames(rev, rest).value.unread)
  {
    var b := [x, hi, lo] + payload + rest;
    RecordLayout(x, hi, lo, payload, rest, b);
    ReadStep(rev, b, |payload|);
  }

  /**
    Records written one after another, each with an arbitrary first header
    byte and the payload's length in the other two, are read back as their
    payloads in order.
   */
  function Records(xs: seq<byte>, payloads: seq<seq<byte>>): (r: seq<byte>)
    requires |xs| == |payloads|
    ensures |payloads| == 0 ==> r == []
  {
    if |payloads| == 0 then []
    else
      var n := |payloads[0]|;
      [xs[0], (n / 256) % 256, n % 256] + payloads[0] + Records(xs[1..], payloads[1..])
  }

  lemma {:induction false} ReadRecordsAsWritten(xs: seq<byte>, payloads: seq<seq<byte>>)
    requires |xs| == |payloads|
    requires forall i :: 0 <= i < |payloads| ==> |payloads[i]| < U16_LIMIT
    ensures DecodeFrame(AsWritten, Records(xs, payloads)) == Ok(payloads)
  {
    if |payloads| > 0 {
      var n := |payloads[0]|;
      var rest := Records(xs[1..], payloads[1..]);
      ReadRecordsAsWritten(xs[1..], payloads[1..]);
      var hi: byte, lo: byte := (n / 256) % 256, n % 256;
      U16Split(n);
      ReadRecordsStep(xs[0], hi, lo, payloads[0], rest, payloads[1..]);
      assert Records(xs, payloads) == [xs[0], hi, lo] + payloads[0] + rest;
      HeadTail(payloads);
    }
  }

  lemma ReadRecordsStep(x: byte, hi: byte, lo: byte, payload: seq<byte>, rest: seq<byte>, later: seq<seq<byte>>)
    requires U16(hi, lo) == |payload|
    requires DecodeFrame(AsWritten, rest) == Ok(later)
    ensures DecodeFrame(AsWritten, [x, hi, lo] + payload + rest) == Ok([payload] + later)
  {
    ReadRecord(AsWritten, x, hi, lo, payload, rest);
  }

  // ---------------------------------------------------------------------
  // Encoder against decoder

  /** The prologue is present exactly when `intro` is set; the framed part is the same either way. */
  lemma PrologueIffIntro(rev: Revision, data: seq<byte>)
    ensures EncodeFrame(rev, true, data) == PROLOGUE + EncodeFrame(rev, false, data)
    ensures EncodeFrame(rev, false, data) == Header(rev, |data|) + data
  {
  }

  /** A record that ends the input is the last frame, and nothing is left unread. */
  lemma LastRecord(rev: Revision, x: byte, hi: byte, lo: byte, payload: seq<byte>)
    requires HeaderLength(rev, x, hi, lo) == |payload|
    ensures ReadFrames(rev, [x, hi, lo] + payload) == Ok(Frames([payload], []))
  {
    assert [x, hi, lo] + payload == [x, hi, lo] + payload + [];
    assert ReadFrames(rev, []) == Ok(Frames([], []));
    ReadRecord(rev, x, hi, lo, payload, []);
    assert [payload] + [] == [payload];
  }

  /** As written, the six header bytes of a payload below 2^16 bytes. */
  lemma AsWrittenHeader(data: seq<byte>)
    requires |data| < U16_LIMIT
    ensures EncodeFrame(AsWritten, false, data) == [0, 0, 0, 0, |data| / 256, |data| % 256] + data
    ensures EncodeFrame(AsWritten, false, data) == [0, 0, 0] + [] + ([0, |data| / 256, |data| % 256] + data)
  {
    var n := |data|;
    assert BigEndian(n / 0x1_0000, 4) == [0, 0, 0, 0] by {
      BigEndian4(0);
    }
    assert BigEndian(n % 0x1_0000, 2) == [n / 256, n % 256] by {
      BigEndian2(n);
    }
  }

  /**
    As written, a short payload framed without prologue decodes as TWO frames:
    the header's first three bytes (all zero) are read as an empty frame, and
    the last three as the real length.
   */
  lemma AsWrittenFrameSplits(data: seq<byte>)
    requires |data| < U16_LIMIT
    ensures DecodeFrame(AsWritten, EncodeFrame(AsWritten, false, data)) == Ok([[], data])
  {
    var hi: byte, lo: byte := |data| / 256, |data| % 256;
    U16Split(|data|);
    assert (|data| / 256) % 256 == hi;
    assert HeaderLength(AsWritten, 0, hi, lo) == |data|;
    AsWrittenHeader(data);
    TwoRecords(AsWritten, 0, 0, 0, [], 0, hi, lo, data, EncodeFrame(AsWritten, false, data));
  }

  /** Two records back to back decode as their two payloads. */
  lemma TwoRecords(
    rev: Revision, x1: byte, hi1: byte, lo1: byte, p1: seq<byte>,
    x2: byte, hi2: byte, lo2: byte, p2: seq<byte>, b: seq<byte>)
    requires HeaderLength(rev, x1, hi1, lo1) == |p1| && HeaderLength(rev, x2, hi2, lo2) == |p2|
    requires b == [x1, hi1, lo1] + p1 + ([x2, hi2, lo2] + p2)
    ensures DecodeFrame(rev, b) == Ok([p1, p2])
  {
    LastRecord(rev, x2, hi2, lo2, p2);
    ReadRecord(rev, x1, hi1, lo1, p1, [x2, hi2, lo2] + p2);
    assert [p1] + [p2] == [p1, p2];
  }

  /** A three-byte header read as one number. */
  lemma ThreeByteValue(h: seq<byte>)
    requires |h| == 3
    ensures FromBigEndian(h) == h[0] * 0x1_0000 + U16(h[1], h[2])
  {
    assert h == [h[0]] + [h[1], h[2]];
    FromBigEndianAppend([h[0]], [h[1], h[2]]);
    assert [h[0]][..0] == [];
  }

  /** Corrected: a framed payload below 2^24 bytes is read back as itself, whatever follows it. */
  lemma FrameRoundTrip(data: seq<byte>, rest: seq<byte>)
    requires |data| < U24_LIMIT
    ensures ReadFrames(Corrected, EncodeFrame(Corrected, false, data) + rest).Ok? == ReadFrames(Corrected, rest).Ok?
    ensures ReadFrames(Corrected, rest).Ok? ==>
      ReadFrames(Corrected, EncodeFrame(Corrected, false, data) + rest).value
      == Frames([data] + ReadFrames(Corrected, rest).value.decoded, ReadFrames(Corrected, rest).value.unread)
  {
    var h := Header(Corrected, |data|);
    HeaderValue(Corrected, |data|);
    ThreeByteValue(h);
    assert EncodeFrame(Corrected, false, data) + rest == [h[0], h[1], h[2]] + data + rest;
    ReadRecord(Corrected, h[0], h[1], h[2], data, rest);
  }

  /** Corrected framing of several payloads, concatenated. */
  function EncodeAll(frames: seq<seq<byte>>): (r: seq<byte>)
    ensures |frames| == 0 ==> r == []
  {
    if |frames| == 0 then [] else EncodeFrame(Corrected, false, frames[0]) + EncodeAll(frames[1..])
  }

  /** Corrected: the decoder reads a stream of encoded frames back as the frames, in order, with nothing left over. */
  lemma {:induction false} FramesRoundTrip(frames: seq<seq<byte>>)
    requires forall i :: 0 <= i < |frames| ==> |frames[i]| < U24_LIMIT
    ensures ReadFrames(Corrected, EncodeAll(frames)) == Ok(Frames(frames, []))
  {
    if |frames| > 0 {
      FramesRoundTrip(frames[1..]);
      FrameRoundTrip(frames[0], EncodeAll(frames[1..]));
      HeadTail(frames);
    }
  }
}
