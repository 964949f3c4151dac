/** The wire format of one media chunk: an 8-byte little-endian header
    `[u32 msg_id][u16 chunk_idx][u16 total_chunks]` followed by the body. */
module Wire {
  import opened Prelude

  type Byte = b: int | 0 <= b < 0x100
  type Bytes = seq<Byte>

  const U16_SPAN := 0x1_0000
  const U32_SPAN := 0x1_0000_0000
  const HEADER_BYTES := 8

  type U16 = n: int | 0 <= n < U16_SPAN
  type U32 = n: int | 0 <= n < U32_SPAN

  datatype Chunk = Chunk(msgId: U32, idx: U16, total: U16, body: Bytes)

  function Le16(n: U16): (r: Bytes)
    ensures |r| == 2
  {
    [n % 0x100, n / 0x100]
  }

  function Le32(n: U32): (r: Bytes)
    ensures |r| == 4
  {
    Le16(n % U16_SPAN) + Le16(n / U16_SPAN)
  }

  function FromLe16(b: Bytes): (n: U16)
    requires |b| == 2
  {
    (b[0] as int) + 0x100 * (b[1] as int)
  }

  function FromLe32(b: Bytes): (n: U32)
    requires |b| == 4
  {
    FromLe16(b[..2]) + U16_SPAN * FromLe16(b[2..])
  }

  function Encode(c: Chunk): (buf: Bytes)
    ensures |buf| == HEADER_BYTES + |c.body|
  {
    Le32(c.msgId) + Le16(c.idx) + Le16(c.total) + c.body
  }

  /** What the receiver reads from a buffer; None when it is shorter than a header. */
  function Decode(buf: Bytes): (c: Option<Chunk>)
    ensures c.Some? <==> HEADER_BYTES <= |buf|
  {
    if |buf| < HEADER_BYTES then None
    else Some(Chunk(FromLe32(buf[..4]), FromLe16(buf[4..6]), FromLe16(buf[6..8]), buf[8..]))
  }

  lemma Le32RoundTrip(n: U32)
    ensures FromLe32(Le32(n)) == n
  {
    assert Le32(n)[..2] == Le16(n % U16_SPAN);
    assert Le32(n)[2..] == Le16(n / U16_SPAN);
  }

  lemma Le16Back(b: Bytes)
    requires |b| == 2
    ensures Le16(FromLe16(b)) == b
  {
  }

  lemma Le32Back(b: Bytes)
    requires |b| == 4
    ensures Le32(FromLe32(b)) == b
  {
    var n, low, high := FromLe32(b), FromLe16(b[..2]), FromLe16(b[2..]);
    Le16Back(b[..2]);
    Le16Back(b[2..]);
    assert n == low + U16_SPAN * high;
    assert n % U16_SPAN == low && n / U16_SPAN == high;
    assert b == b[..2] + b[2..];
  }

  /** Header decode inverts header encode. */
  lemma DecodeEncode(c: Chunk)
    ensures Decode(Encode(c)) == Some(c)
  {
    var buf := Encode(c);
    assert buf[..4] == Le32(c.msgId);
    assert buf[4..6] == Le16(c.idx);
    assert buf[6..8] == Le16(c.total);
    assert buf[8..] == c.body;
    Le32RoundTrip(c.msgId);
  }

  /** The layout, byte by byte: message id, index and total, each with its low byte first, then the
      body. */
  lemma HeaderLayout(c: Chunk)
    ensures var buf := Encode(c);
            && buf[0] == c.msgId % 256 && buf[1] == c.msgId / 256 % 256
            && buf[2] == c.msgId / 65536 % 256 && buf[3] == c.msgId / 16777216
            && buf[4] == c.idx % 256 && buf[5] == c.idx / 256
            && buf[6] == c.total % 256 && buf[7] == c.total / 256
            && buf[8..] == c.body
  {
    var low, high := c.msgId % U16_SPAN, c.msgId / U16_SPAN;
    assert c.msgId == low + U16_SPAN * high;
    assert low % 256 == c.msgId % 256 && low / 256 == c.msgId / 256 % 256;
    assert high / 256 == c.msgId / 16777216;
  }

  /** Every buffer long enough to hold a header is the encoding of exactly one chunk. */
  lemma EncodeDecode(buf: Bytes)
    requires HEADER_BYTES <= |buf|
    ensures Encode(Decode(buf).value) == buf
  {
    Le32Back(buf[..4]);
    Le16Back(buf[4..6]);
    Le16Back(buf[6..8]);
    assert buf == buf[..4] + buf[4..6] + buf[6..8] + buf[8..];
  }
}
