/** Frame layout of the X protocol client: a 4-octet big-endian length that
    counts the payload plus the five header octets, one message-id octet,
    then the payload. */
module XFraming {
  import opened Bytes
  import opened Results

  const HEADER_SIZE: nat := 5

  /** The octets `send_message` writes for message id `mid` and serialized
      payload `payload`: `htonl(size + 5)` (which keeps only 32 bits), the id
      stored into a `char`, then the payload. */
  function EncodeFrame(mid: int, payload: seq<byte>): (r: seq<byte>)
    ensures |r| == HEADER_SIZE + |payload|
    ensures r[HEADER_SIZE..] == payload
    ensures r[4] == CharOf(mid)
    ensures ReadBigEndian32(r[..4]) == (|payload| + HEADER_SIZE) % TWO_32
    ensures |payload| + HEADER_SIZE < TWO_32 ==> ReadBigEndian32(r[..4]) == |payload| + HEADER_SIZE
  {
    var len := BigEndian32((|payload| + HEADER_SIZE) % TWO_32);
    var r := len + [CharOf(mid)] + payload;
    assert r[..4] == len;
    r
  }

  /** What the five header octets announce. */
  datatype Header = Header(payloadLength: nat, mid: int)

  /** A header whose length field cannot count its own five octets. */
  datatype FrameError = LengthUnderflow(declared: int)

  /** The value of the length field of a received header. */
  function DeclaredLength(h: seq<byte>): (n: int)
    requires |h| >= 4
    ensures 0 <= n < TWO_32
  {
    ReadBigEndian32(h[..4])
  }

  /** Decoding of a received header: the payload length is the length field
      minus five, the id is octet 4 read as a plain `char`. A length field
      below five is refused instead of being turned into a negative size. */
  function DecodeHeader(h: seq<byte>): (r: Result<Header, FrameError>)
    requires |h| == HEADER_SIZE
    ensures r.Returned? <==> DeclaredLength(h) >= HEADER_SIZE
    ensures r.Returned? ==> r.value.payloadLength + HEADER_SIZE == DeclaredLength(h)
    ensures r.Returned? ==> r.value.mid == SignedChar(h[4])
    ensures r.Raised? ==> r.error == LengthUnderflow(DeclaredLength(h))
  {
    var declared := DeclaredLength(h);
    if declared < HEADER_SIZE then Raised(LengthUnderflow(declared))
    else Returned(Header(declared - HEADER_SIZE, SignedChar(h[4])))
  }

  /** The payload length exactly as the client computes it: `ntohl(...) - 5`
      is evaluated in `uint32_t` and then stored into an `int`. */
  function MsgLenAsWritten(h: seq<byte>): (n: int)
    requires |h| == HEADER_SIZE
    ensures -TWO_31 <= n < TWO_31
  {
    ToInt32((DeclaredLength(h) - HEADER_SIZE) % TWO_32)
  }

  /** A header announcing 3 octets makes the client allocate a buffer of
      size -2. */
  lemma MsgLenAsWrittenUnderflows()
    ensures MsgLenAsWritten([0, 0, 0, 3, 0]) == -2
  {
    assert DeclaredLength([0, 0, 0, 3, 0]) == 3;
  }

  /** The computed length is negative exactly for length fields below five
      and for those of 2^31 + 5 and above. */
  lemma MsgLenAsWrittenNegative(h: seq<byte>)
    requires |h| == HEADER_SIZE
    ensures MsgLenAsWritten(h) < 0 <==> DeclaredLength(h) < HEADER_SIZE || DeclaredLength(h) >= TWO_31 + HEADER_SIZE
  {
  }

  /** Where the length field is sane the written computation and the
      corrected decoding agree. */
  lemma MsgLenAsWrittenAgrees(h: seq<byte>)
    requires |h| == HEADER_SIZE
    requires HEADER_SIZE <= DeclaredLength(h) < TWO_31 + HEADER_SIZE
    ensures DecodeHeader(h).Returned? && MsgLenAsWritten(h) == DecodeHeader(h).value.payloadLength
  {
  }

  /** The header of an encoded frame decodes to the payload size and the id
      it was written with, for every id that fits a `char` and every payload
      the 32-bit length field can count. */
  lemma FrameHeaderRoundTrip(mid: int, payload: seq<byte>)
    requires -0x80 <= mid < 0x80
    requires |payload| + HEADER_SIZE < TWO_32
    ensures DecodeHeader(EncodeFrame(mid, payload)[..HEADER_SIZE]) == Returned(Header(|payload|, mid))
  {
    var f := EncodeFrame(mid, payload);
    assert f[..HEADER_SIZE][..4] == f[..4];
    assert f[..HEADER_SIZE][4] == f[4];
  }

  /** Conversely every header that decodes is the header of the frame that
      re-encodes what it announced. */
  lemma FrameHeaderReencode(h: seq<byte>, payload: seq<byte>)
    requires |h| == HEADER_SIZE
    requires DecodeHeader(h).Returned?
    requires |payload| == DecodeHeader(h).value.payloadLength
    ensures EncodeFrame(DecodeHeader(h).value.mid, payload)[..HEADER_SIZE] == h
  {
    var hd := DecodeHeader(h).value;
    var f := EncodeFrame(hd.mid, payload);
    ReadBigEndian32RoundTrip(h[..4]);
    ReadBigEndian32RoundTrip(f[..4]);
    assert f[..4] == h[..4];
    assert f[4] == h[4];
    assert f[..HEADER_SIZE] == f[..4] + [f[4]];
    assert h == h[..4] + [h[4]];
  }
}
