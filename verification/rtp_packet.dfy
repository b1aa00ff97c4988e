/** The RTP packet of section 5.1 of RFC 3550 as the streaming code builds and
    reads it: a 12-byte fixed header (V, P, X, CC, M, PT, sequence number,
    timestamp, SSRC) followed by the payload bytes. */
module RtpPacket {
  import opened Wrappers
  import opened Octets
  import opened ByteValues

  const HEADER_SIZE: nat := 12

  type Header = h: Bytes | |h| == HEADER_SIZE
    witness [0, 0, 0, 0, 0, 0, 0, 0, 0, 0, 0, 0]

  /** Encoding writes bytes 0 and 1 without masking; a field too wide for its
      bits (or negative) makes the byte value leave 0..255, which a bytearray
      refuses with ValueError. */
  datatype EncodeError = ByteOutOfRange

  /** Decoding refuses input shorter than the fixed header. */
  datatype DecodeError = TooShort

  datatype Packet = Packet(header: Header, payload: Bytes)
  {
    /** Bits 7-6 of byte 0. */
    function Version(): (v: nat)
      ensures v < 4
    {
      (header[0] >> 6) as nat
    }

    /** Bytes 2-3, big-endian. */
    function SeqNum(): (n: nat)
      ensures n < 0x1_0000
    {
      FromBigEndianBound(header[2..4]);
      Pow256Values();
      FromBigEndian(header[2..4])
    }

    /** Bytes 4-7, big-endian. */
    function Timestamp(): (t: nat)
    {
      FromBigEndian(header[4..8])
    }

    /** Bits 6-0 of byte 1. */
    function PayloadType(): (pt: nat)
      ensures pt < 128
    {
      (header[1] & 127) as nat
    }

    function GetPayload(): Bytes
    {
      payload
    }

    /** The datagram sent on the wire: header then payload. */
    function GetPacket(): (bs: Bytes)
      ensures |bs| == HEADER_SIZE + |payload|
    {
      header + payload
    }

    /** Bit 7 of byte 1. The source has no getter for it; the model reads it
        to state where the frame boundary falls. */
    function Marker(): (m: nat)
      ensures m < 2
    {
      (header[1] >> 7) as nat
    }

    /** Bytes 8-11, big-endian. The source has no getter for it either. */
    function Ssrc(): (s: nat)
    {
      FromBigEndian(header[8..12])
    }
  }

  /** `(version << 6) | (padding << 5) | (extension << 4) | cc` is a byte
      value exactly when every operand is non-negative and no operand has a
      bit at position 8 or above. */
  predicate FirstByteFits(version: int, padding: int, extension: int, cc: int)
  {
    0 <= version < 4 && 0 <= padding < 8 && 0 <= extension < 16 && 0 <= cc < 256
  }

  /** `(marker << 7) | pt` is a byte value exactly in this case. */
  predicate SecondByteFits(marker: int, pt: int)
  {
    0 <= marker < 2 && 0 <= pt < 256
  }

  /** The header fields that the getters give back unchanged: one-bit flags,
      a four-bit CSRC count, a two-bit version. */
  predicate NarrowFirstByte(version: int, padding: int, extension: int, cc: int)
  {
    0 <= version < 4 && 0 <= padding < 2 && 0 <= extension < 2 && 0 <= cc < 16
  }

  /** Bytes 0 and 1 as the encoder computes them. Under the fits predicates the
      shifts below never carry a bit out of the byte, so this bv8 arithmetic
      equals Python's unbounded int arithmetic. */
  function FirstByte(version: int, padding: int, extension: int, cc: int): Byte
    requires FirstByteFits(version, padding, extension, cc)
  {
    ((version as bv8) << 6) | ((padding as bv8) << 5) | ((extension as bv8) << 4) | (cc as bv8)
  }

  function SecondByte(marker: int, pt: int): Byte
    requires SecondByteFits(marker, pt)
  {
    ((marker as bv8) << 7) | (pt as bv8)
  }

  /** Build a packet from its fields. Sequence number, timestamp and SSRC are
      masked to their widths (16, 32, 32 bits); bytes 0 and 1 are not, and an
      out-of-range byte fails the whole encoding. The timestamp is a parameter
      (the source's default reads the wall clock). */
  function Encode(version: int, padding: int, extension: int, cc: int, seqnum: int,
                  marker: int, pt: int, ssrc: int, payload: Bytes, timestamp: int)
    : (r: Result<Packet, EncodeError>)
    ensures r.Success? <==> FirstByteFits(version, padding, extension, cc) && SecondByteFits(marker, pt)
    ensures r.Success? ==> r.value.SeqNum() == seqnum % 0x1_0000
    ensures r.Success? ==> r.value.Timestamp() == timestamp % 0x1_0000_0000
    ensures r.Success? ==> r.value.Ssrc() == ssrc % 0x1_0000_0000
    ensures r.Success? ==> r.value.GetPayload() == payload
    ensures r.Success? ==> |r.value.GetPacket()| == HEADER_SIZE + |payload|
    ensures r.Success? && NarrowFirstByte(version, padding, extension, cc) ==> r.value.Version() == version
    ensures r.Success? && pt < 128 ==> r.value.PayloadType() == pt && r.value.Marker() == marker
  {
    if !(FirstByteFits(version, padding, extension, cc) && SecondByteFits(marker, pt)) then
      Failure(ByteOutOfRange)
    else
      var p := Assemble(FirstByte(version, padding, extension, cc), SecondByte(marker, pt),
                        seqnum, timestamp, ssrc, payload);
      FirstByteFields(version, padding, extension, cc);
      SecondByteFields(marker, pt);
      Success(p)
  }

  /** The header laid out byte by byte: the two flag bytes, then the
      sequence number, timestamp and SSRC stored big-endian at their widths. */
  function Assemble(b0: Byte, b1: Byte, seqnum: int, timestamp: int, ssrc: int, payload: Bytes)
    : (p: Packet)
    ensures p.header[0] == b0 && p.header[1] == b1 && p.payload == payload
    ensures p.SeqNum() == seqnum % 0x1_0000
    ensures p.Timestamp() == timestamp % 0x1_0000_0000
    ensures p.Ssrc() == ssrc % 0x1_0000_0000
  {
    var a, b, c := ToBigEndian(seqnum, 2), ToBigEndian(timestamp, 4), ToBigEndian(ssrc, 4);
    var h := [b0, b1] + (a + b + c);
    HeaderSlices(h, a, b, c);
    FieldValues(seqnum, timestamp, ssrc);
    Packet(h, payload)
  }

  /** Each multi-byte field reads back modulo 2 to the power of its width. */
  lemma {:induction false} FieldValues(seqnum: int, timestamp: int, ssrc: int)
    ensures FromBigEndian(ToBigEndian(seqnum, 2)) == seqnum % 0x1_0000
    ensures FromBigEndian(ToBigEndian(timestamp, 4)) == timestamp % 0x1_0000_0000
    ensures FromBigEndian(ToBigEndian(ssrc, 4)) == ssrc % 0x1_0000_0000
  {
    BigEndianRoundTrip(seqnum, 2);
    BigEndianRoundTrip(timestamp, 4);
    BigEndianRoundTrip(ssrc, 4);
    Pow256Values();
  }

  /** Where the three multi-byte fields sit in the header. */
  lemma {:induction false} HeaderSlices(h: Bytes, a: Bytes, b: Bytes, c: Bytes)
    requires |h| == HEADER_SIZE && |a| == 2 && |b| == 4 && |c| == 4 && h[2..] == a + b + c
    ensures h[2..4] == a && h[4..8] == b && h[8..12] == c
  {
    SlicesOfConcat(h, 2, a, b, c);
    assert h[8..12] == h[8..];
  }

  lemma {:induction false} FirstByteFields(version: int, padding: int, extension: int, cc: int)
    requires FirstByteFits(version, padding, extension, cc)
    ensures NarrowFirstByte(version, padding, extension, cc) ==>
              (FirstByte(version, padding, extension, cc) >> 6) as nat == version
  {
    if NarrowFirstByte(version, padding, extension, cc) {
      FirstByteBits(version as bv8, padding as bv8, extension as bv8, cc as bv8);
      ByteValue(version);
    }
  }

  lemma {:induction false} SecondByteFields(marker: int, pt: int)
    requires SecondByteFits(marker, pt)
    ensures pt < 128 ==> (SecondByte(marker, pt) & 127) as nat == pt
    ensures pt < 128 ==> (SecondByte(marker, pt) >> 7) as nat == marker
  {
    if pt < 128 {
      SecondByteBits(marker as bv8, pt as bv8);
      ByteValue(marker);
      ByteValue(pt);
    }
  }

  /** Split a received datagram into its fixed header and payload. No field
      is validated. Input shorter than the header fails, and a decoded
      packet re-emits exactly the datagram it came from. */
  function Decode(byteStream: Bytes): (r: Result<Packet, DecodeError>)
    ensures r.Success? <==> |byteStream| >= HEADER_SIZE
    ensures r.Success? ==> r.value.GetPacket() == byteStream
  {
    if |byteStream| < HEADER_SIZE then Failure(TooShort)
    else
      assert byteStream[..HEADER_SIZE] + byteStream[HEADER_SIZE..] == byteStream;
      Success(Packet(byteStream[..HEADER_SIZE], byteStream[HEADER_SIZE..]))
  }

  /** Decoding the bytes a packet emits restores that packet: the same twelve
      header bytes and payload, hence the same value for every getter. */
  lemma {:induction false} DecodeGetPacket(p: Packet)
    ensures Decode(p.GetPacket()) == Success(p)
  {
    var bs := p.GetPacket();
    assert bs[..HEADER_SIZE] == p.header;
    assert bs[HEADER_SIZE..] == p.payload;
  }

  /** Encoding then sending then decoding reproduces every header field that
      fits its width, and the payload. */
  lemma {:induction false} EncodeDecodeRoundTrip(version: int, padding: int, extension: int, cc: int, seqnum: int,
                              marker: int, pt: int, ssrc: int, payload: Bytes, timestamp: int)
      returns (p: Packet)
    requires NarrowFirstByte(version, padding, extension, cc)
    requires 0 <= marker < 2 && 0 <= pt < 128
    requires 0 <= seqnum < 0x1_0000 && 0 <= timestamp < 0x1_0000_0000 && 0 <= ssrc < 0x1_0000_0000
    ensures Encode(version, padding, extension, cc, seqnum, marker, pt, ssrc, payload, timestamp) == Success(p)
    ensures Decode(p.GetPacket()) == Success(p)
    ensures p.Version() == version && p.SeqNum() == seqnum && p.Timestamp() == timestamp
    ensures p.Marker() == marker && p.PayloadType() == pt && p.Ssrc() == ssrc
    ensures p.GetPayload() == payload
  {
    var e := Encode(version, padding, extension, cc, seqnum, marker, pt, ssrc, payload, timestamp);
    p := e.value;
    DecodeGetPacket(p);
    ModUnique(seqnum, 0x1_0000, 0, seqnum);
    ModUnique(timestamp, 0x1_0000_0000, 0, timestamp);
    ModUnique(ssrc, 0x1_0000_0000, 0, ssrc);
  }

  /** Byte 0 is not masked: the upper two bits of a padding value above 1
      land on the version bits, so version() reads back each bit of the
      encoded version OR-ed with the matching padding bit. */
  lemma {:induction false} WidePaddingCorruptsVersion(version: int, padding: int, extension: int, cc: int, seqnum: int,
                                                      marker: int, pt: int, ssrc: int, payload: Bytes, timestamp: int)
    requires 0 <= version < 4 && 0 <= padding < 8 && 0 <= extension < 2 && 0 <= cc < 16
    requires SecondByteFits(marker, pt)
    ensures var e := Encode(version, padding, extension, cc, seqnum, marker, pt, ssrc, payload, timestamp);
            && e.Success?
            && e.value.Version() / 2 == Max(version / 2, padding / 4)
            && e.value.Version() % 2 == Max(version % 2, padding / 2 % 2)
  {
    var e := Encode(version, padding, extension, cc, seqnum, marker, pt, ssrc, payload, timestamp);
    assert e.value.header[0] == FirstByte(version, padding, extension, cc);
    VersionBits(version, padding, extension, cc);
  }

  lemma {:induction false} VersionBits(version: int, padding: int, extension: int, cc: int)
    requires 0 <= version < 4 && 0 <= padding < 8 && 0 <= extension < 2 && 0 <= cc < 16
    ensures var v := (FirstByte(version, padding, extension, cc) >> 6) as nat;
            v / 2 == Max(version / 2, padding / 4) && v % 2 == Max(version % 2, padding / 2 % 2)
  {
    ByteValue(version);
    ByteValue(padding);
    FirstByteSpill(version as bv8, padding as bv8, extension as bv8, cc as bv8);
  }

  /** Byte 1 is not masked either: a payload type of 128 or more sets the
      marker bit, and payloadType() reads back the type modulo 128. */
  lemma {:induction false} WidePayloadTypeSetsMarker(version: int, padding: int, extension: int, cc: int, seqnum: int,
                                                     marker: int, pt: int, ssrc: int, payload: Bytes, timestamp: int)
    requires FirstByteFits(version, padding, extension, cc)
    requires 0 <= marker < 2 && 0 <= pt < 256
    ensures var e := Encode(version, padding, extension, cc, seqnum, marker, pt, ssrc, payload, timestamp);
            && e.Success?
            && e.value.Marker() == Max(marker, pt / 128)
            && e.value.PayloadType() == pt % 128
  {
    var e := Encode(version, padding, extension, cc, seqnum, marker, pt, ssrc, payload, timestamp);
    assert e.value.header[1] == SecondByte(marker, pt);
    MarkerBits(marker, pt);
  }

  lemma {:induction false} MarkerBits(marker: int, pt: int)
    requires 0 <= marker < 2 && 0 <= pt < 256
    ensures (SecondByte(marker, pt) >> 7) as nat == Max(marker, pt / 128)
    ensures (SecondByte(marker, pt) & 127) as nat == pt % 128
  {
    ByteValue(marker);
    ByteValue(pt);
    SecondByteSpill(marker as bv8, pt as bv8);
  }

  /** The datagrams number consecutively from seqNum, modulo 2^16. */
  predicate Numbered(ws: seq<Bytes>, seqNum: int)
  {
    forall k :: 0 <= k < |ws| ==>
      Decode(ws[k]).Success? && Decode(ws[k]).value.SeqNum() == (seqNum + k) % 0x1_0000
  }

  lemma {:induction false} NumberedAppend(a: seq<Bytes>, b: seq<Bytes>, seqNum: int)
    requires Numbered(a, seqNum) && Numbered(b, seqNum + |a|)
    ensures Numbered(a + b, seqNum)
  {
    forall k | |a| <= k < |a| + |b|
      ensures Decode((a + b)[k]).Success?
      ensures Decode((a + b)[k]).value.SeqNum() == (seqNum + k) % 0x1_0000
    {
      assert (a + b)[k] == b[k - |a|];
      assert seqNum + k == seqNum + |a| + (k - |a|);
    }
  }

  /** Dropping the first packet of a numbered run leaves a run numbered from
      the next counter value. */
  lemma {:induction false} NumberedTail(ws: seq<Bytes>, seqNum: int)
    requires Numbered(ws, seqNum) && |ws| > 0
    ensures Numbered(ws[1..], seqNum + 1)
  {
    forall k | 0 <= k < |ws| - 1
      ensures Decode(ws[1..][k]).Success?
      ensures Decode(ws[1..][k]).value.SeqNum() == (seqNum + 1 + k) % 0x1_0000
    {
      assert ws[1..][k] == ws[k + 1];
      assert seqNum + 1 + k == seqNum + (k + 1);
    }
  }
}
