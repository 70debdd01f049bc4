/**
 * The 4-byte message header (lib/protocol/header.go): version in bits
 * 31-28, message ID in bits 27-16, message type in bits 15-8, bits 7-1
 * reserved, and the compression flag in bit 0, sent big-endian.
 */
module Header {
  import opened Numbers
  import opened Wrappers

  /**
   * The decoded header. The fields are Go `int`s: 64-bit two's complement
   * words, so a negative value is its 64-bit pattern and Go's `&` applies
   * to it directly.
   */
  datatype Header = Header(version: bv64, msgID: bv64, msgType: bv64, compression: bool)

  /** Every field fits its width in the packed word (which also rules out negative values). */
  predicate InRange(h: Header) {
    h.version < 16 && h.msgID < 4096 && h.msgType < 256
  }

  /** The header with each field cut to its width, as the encoder's masks cut it. */
  function Masked(h: Header): (m: Header)
    ensures InRange(m) && m.compression == h.compression
    ensures InRange(h) <==> m == h
  {
    Header(h.version & 0xf, h.msgID & 0xfff, h.msgType & 0xff, h.compression)
  }

  /**
   * Go's `encodeHeader`: packs the masked fields into one word. Out-of-range
   * fields are cut, never rejected.
   */
  function EncodeHeader(h: Header): (u: bv32)
    ensures (u >> 28) as bv64 == h.version & 0xf
    ensures ((u >> 16) & 0xfff) as bv64 == h.msgID & 0xfff
    ensures ((u >> 8) & 0xff) as bv64 == h.msgType & 0xff
    ensures u & 0xfe == 0
    ensures (u & 1 == 1) <==> h.compression
  {
    var isComp: bv32 := if h.compression then 1 << 0 else 0;
    ((h.version & 0xf) as bv32 << 28)
      + ((h.msgID & 0xfff) as bv32 << 16)
      + ((h.msgType & 0xff) as bv32 << 8)
      + isComp
  }

  /** Go's `decodeHeader`: extracts each field from its bits. */
  function DecodeHeader(u: bv32): (h: Header)
    ensures InRange(h)
    ensures h.version == (u >> 28) as bv64
    ensures h.msgID == ((u >> 16) & 0xfff) as bv64
    ensures h.msgType == ((u >> 8) & 0xff) as bv64
    ensures h.compression <==> u & 1 == 1
  {
    Header(
      (u >> 28) as bv64 & 0xf,
      (u >> 16) as bv64 & 0xfff,
      (u >> 8) as bv64 & 0xff,
      u & 1 == 1)
  }

  /** Decoding an encoded header gives back the masked header; for an in-range header, the header itself. */
  lemma DecodeEncode(h: Header)
    ensures DecodeHeader(EncodeHeader(h)) == Masked(h)
    ensures InRange(h) ==> DecodeHeader(EncodeHeader(h)) == h
  {
  }

  /** Encoding sees only the masked fields. */
  lemma EncodeMasks(h: Header)
    ensures EncodeHeader(h) == EncodeHeader(Masked(h))
  {
  }

  /** A header with version 20 encodes to the same word as one with version 4. */
  lemma VersionTwentyEncodesAsFour(msgID: bv64, msgType: bv64, compression: bool)
    ensures EncodeHeader(Header(20, msgID, msgType, compression)) == EncodeHeader(Header(4, msgID, msgType, compression))
  {
  }

  /** Re-encoding a decoded word gives it back exactly when its reserved bits 1-7 are zero. */
  lemma EncodeDecode(u: bv32)
    ensures EncodeHeader(DecodeHeader(u)) == u <==> u & 0xfe == 0
  {
  }

  // ---------------------------------------------------------------------
  // Big-endian byte order
  // ---------------------------------------------------------------------

  /** Go's `binary.BigEndian.PutUint32`: the four bytes of `u`, most significant first. */
  function PutUint32(u: bv32): (bs: seq<byte>)
    ensures |bs| == 4
    ensures bs[0] as bv32 == u >> 24
    ensures bs[1] as bv32 == (u >> 16) & 0xff
    ensures bs[2] as bv32 == (u >> 8) & 0xff
    ensures bs[3] as bv32 == u & 0xff
  {
    [(u >> 24) as byte, ((u >> 16) & 0xff) as byte, ((u >> 8) & 0xff) as byte, (u & 0xff) as byte]
  }

  /** Go's `binary.BigEndian.Uint32`: the word whose big-endian form is the first four bytes. */
  function Uint32(bs: seq<byte>): (u: bv32)
    requires |bs| >= 4
    ensures u >> 24 == bs[0] as bv32
    ensures (u >> 16) & 0xff == bs[1] as bv32
    ensures (u >> 8) & 0xff == bs[2] as bv32
    ensures u & 0xff == bs[3] as bv32
  {
    ((bs[0] as bv32) << 24) | ((bs[1] as bv32) << 16) | ((bs[2] as bv32) << 8) | (bs[3] as bv32)
  }

  /** The two byte-order conversions are inverse to each other. */
  lemma BigEndianRoundTrip(u: bv32, bs: seq<byte>)
    ensures Uint32(PutUint32(u)) == u
    ensures |bs| >= 4 ==> PutUint32(Uint32(bs)) == bs[..4]
  {
  }

  /** Unmarshalling a marshalled in-range header gives the header back; any header comes back masked. */
  lemma MarshalRoundTrip(h: Header)
    ensures DecodeHeader(Uint32(PutUint32(EncodeHeader(h)))) == Masked(h)
    ensures InRange(h) ==> DecodeHeader(Uint32(PutUint32(EncodeHeader(h)))) == h
  {
    BigEndianRoundTrip(EncodeHeader(h), []);
    DecodeEncode(h);
  }

  /**
   * The marshalled header on the wire: the version in the high nibble of
   * byte 0, the message ID across the low nibble of byte 0 and byte 1, the
   * message type in byte 2, and byte 3 is 1 or 0 for the compression flag.
   */
  lemma WireLayout(h: Header)
    ensures var bs := PutUint32(EncodeHeader(h));
      && (bs[0] as bv64) >> 4 == h.version & 0xf
      && (((bs[0] as bv64) & 0xf) << 8) + bs[1] as bv64 == h.msgID & 0xfff
      && bs[2] as bv64 == h.msgType & 0xff
      && bs[3] == (if h.compression then 1 else 0)
  {
  }

  // ---------------------------------------------------------------------
  // Marshal, MarshalTo, Unmarshal
  // ---------------------------------------------------------------------

  /**
   * Go's `MarshalTo`: writes the big-endian encoded header into the first
   * four bytes of the caller's buffer. It never reports an error; a buffer
   * shorter than four bytes makes Go panic, so it is excluded.
   */
  method MarshalTo(h: Header, bs: array<byte>) returns (err: Option<string>)
    requires bs.Length >= 4
    modifies bs
    ensures bs[..4] == PutUint32(EncodeHeader(h))
    ensures bs[4..] == old(bs[4..])
    ensures err == None
  {
    var v := PutUint32(EncodeHeader(h));
    bs[0], bs[1], bs[2], bs[3] := v[0], v[1], v[2], v[3];
    assert bs[..4] == [v[0], v[1], v[2], v[3]];
    err := None;
  }

  /** Go's `Marshal`: a new 4-byte buffer holding the big-endian encoded header, and no error. */
  method Marshal(h: Header) returns (bs: seq<byte>, err: Option<string>)
    ensures |bs| == 4 && bs == PutUint32(EncodeHeader(h))
    ensures DecodeHeader(Uint32(bs)) == Masked(h)
    ensures err == None
  {
    MarshalRoundTrip(h);
    var buf := new byte[4];
    err := MarshalTo(h, buf);
    bs := buf[..];
  }

  /** A header variable; Go's `Unmarshal` has a pointer receiver and overwrites it. */
  class HeaderRef {
    var value: Header

    constructor(h: Header)
      ensures value == h
    {
      value := h;
    }

    /**
     * Go's `Unmarshal`: decodes the first four bytes, big-endian, into the
     * header. It never reports an error; fewer than four bytes make Go
     * panic, so they are excluded.
     */
    method Unmarshal(bs: seq<byte>) returns (err: Option<string>)
      requires |bs| >= 4
      modifies this
      ensures value == DecodeHeader(Uint32(bs))
      ensures InRange(value)
      ensures err == None
    {
      value := DecodeHeader(Uint32(bs));
      err := None;
    }
  }
}
