/** The record codec of the log file (format.py).

    A record is a 12-byte header holding three unsigned 32-bit integers
    (timestamp, key size, value size), followed by the key bytes and then the
    value bytes. The header is written in little-endian byte order. */
module Format {
  import opened Wrappers

  /** One byte of the log file. */
  type Byte = b: int | 0 <= b < 256

  const U32_LIMIT: int := 0x1_0000_0000

  /** An unsigned 32-bit integer, the width of every header field. */
  type U32 = n: int | 0 <= n < U32_LIMIT

  /** A key or value whose length fits in a header size field. */
  type ByteString = s: seq<Byte> | |s| < U32_LIMIT

  /** Size of the packed header `struct.calcsize("III")`. */
  const HEADER_SIZE: nat := 12

  datatype Header = Header(timestamp: U32, keySize: U32, valueSize: U32)

  /** A decoded record; its key and value fit their size fields by construction. */
  datatype Record = Record(timestamp: U32, key: ByteString, value: ByteString)

  /** The two ways `struct` can fail here. */
  datatype Error =
    | OutOfRange                             // pack: an argument does not fit in 32 unsigned bits
    | SizeMismatch(expected: nat, actual: nat) // unpack: the buffer is not exactly the format's size

  predicate InU32(n: int) {
    0 <= n < U32_LIMIT
  }

  /** True when `encode_kv` can pack these arguments. */
  predicate Encodable(timestamp: int, key: seq<Byte>, value: seq<Byte>) {
    InU32(timestamp) && InU32(|key|) && InU32(|value|)
  }

  /** Total number of bytes a record with header `h` occupies. */
  function DeclaredSize(h: Header): nat {
    HEADER_SIZE + h.keySize + h.valueSize
  }

  function RecordSize(r: Record): nat {
    HEADER_SIZE + |r.key| + |r.value|
  }

  function HeaderOf(r: Record): Header {
    Header(r.timestamp, |r.key|, |r.value|)
  }

  // ---------------------------------------------------------------------
  // Unsigned 32-bit little-endian integers

  function EncodeU32(n: U32): (r: seq<Byte>)
    ensures |r| == 4
  {
    [n % 256, n / 256 % 256, n / 256 / 256 % 256, n / 256 / 256 / 256]
  }

  function DecodeU32(b: seq<Byte>): U32
    requires |b| == 4
  {
    var b0, b1, b2, b3 := b[0] as int, b[1] as int, b[2] as int, b[3] as int;
    b0 + 256 * b1 + 65536 * b2 + 16777216 * b3
  }

  lemma DecodeEncodeU32(n: U32)
    ensures DecodeU32(EncodeU32(n)) == n
  {
    var q1 := n / 256;
    var q2 := q1 / 256;
    var q3 := q2 / 256;
    assert n == n % 256 + 256 * q1;
    assert q1 == q1 % 256 + 256 * q2;
    assert q2 == q2 % 256 + 256 * q3;
  }

  lemma DivModByte(lo: Byte, hi: int)
    requires hi >= 0
    ensures (lo + 256 * hi) % 256 == lo
    ensures (lo + 256 * hi) / 256 == hi
  {
  }

  lemma EncodeDecodeU32(b: seq<Byte>)
    requires |b| == 4
    ensures EncodeU32(DecodeU32(b)) == b
  {
    var n := DecodeU32(b);
    var b0, b1, b2, b3 := b[0] as int, b[1] as int, b[2] as int, b[3] as int;
    assert n == b0 + 256 * (b1 + 256 * (b2 + 256 * b3));
    DivModByte(b[0], b1 + 256 * (b2 + 256 * b3));
    DivModByte(b[1], b2 + 256 * b3);
    DivModByte(b[2], b3);
  }

  // ---------------------------------------------------------------------
  // Header

  /** The 12 header bytes of `h`: timestamp, key size, value size. */
  function HeaderBytes(h: Header): (r: seq<Byte>)
    ensures |r| == HEADER_SIZE
  {
    EncodeU32(h.timestamp) + EncodeU32(h.keySize) + EncodeU32(h.valueSize)
  }

  /** `encode_header`: packs the three fields, failing when one does not fit. */
  function EncodeHeader(timestamp: int, keySize: int, valueSize: int): (r: Result<seq<Byte>, Error>)
    ensures r.Success? <==> InU32(timestamp) && InU32(keySize) && InU32(valueSize)
    ensures r.Success? ==> |r.value| == HEADER_SIZE
  {
    if InU32(timestamp) && InU32(keySize) && InU32(valueSize) then
      Success(HeaderBytes(Header(timestamp, keySize, valueSize)))
    else
      Failure(OutOfRange)
  }

  /** `decode_header`: unpacks exactly 12 bytes into the three fields. */
  function DecodeHeader(data: seq<Byte>): (r: Result<Header, Error>)
    ensures r.Success? <==> |data| == HEADER_SIZE
    ensures r.Failure? ==> r.error == SizeMismatch(HEADER_SIZE, |data|)
  {
    if |data| != HEADER_SIZE then
      Failure(SizeMismatch(HEADER_SIZE, |data|))
    else
      Success(Header(DecodeU32(data[0..4]), DecodeU32(data[4..8]), DecodeU32(data[8..12])))
  }

  lemma HeaderBytesRoundTrip(h: Header)
    ensures DecodeHeader(HeaderBytes(h)) == Success(h)
  {
    var b := HeaderBytes(h);
    assert b[0..4] == EncodeU32(h.timestamp);
    assert b[4..8] == EncodeU32(h.keySize);
    assert b[8..12] == EncodeU32(h.valueSize);
    DecodeEncodeU32(h.timestamp);
    DecodeEncodeU32(h.keySize);
    DecodeEncodeU32(h.valueSize);
  }

  /** Decoding an encoded header gives back the three fields. */
  lemma HeaderRoundTrip(timestamp: int, keySize: int, valueSize: int)
    requires InU32(timestamp) && InU32(keySize) && InU32(valueSize)
    ensures DecodeHeader(EncodeHeader(timestamp, keySize, valueSize).value)
         == Success(Header(timestamp, keySize, valueSize))
  {
    HeaderBytesRoundTrip(Header(timestamp, keySize, valueSize));
  }

  /** Every 12-byte buffer is the encoding of the header it decodes to. */
  lemma HeaderDecodeEncode(data: seq<Byte>)
    requires |data| == HEADER_SIZE
    ensures var h := DecodeHeader(data).value;
            EncodeHeader(h.timestamp, h.keySize, h.valueSize) == Success(data)
  {
    EncodeDecodeU32(data[0..4]);
    EncodeDecodeU32(data[4..8]);
    EncodeDecodeU32(data[8..12]);
    assert data == data[0..4] + data[4..8] + data[8..12];
  }

  /** Different headers never have the same 12 bytes. */
  lemma HeaderBytesInjective(h1: Header, h2: Header)
    requires HeaderBytes(h1) == HeaderBytes(h2)
    ensures h1 == h2
  {
    HeaderBytesRoundTrip(h1);
    HeaderBytesRoundTrip(h2);
  }

  // ---------------------------------------------------------------------
  // Records

  /** The bytes of one record: header, key, value. */
  function EncodeRecord(r: Record): (b: seq<Byte>)
    ensures |b| == RecordSize(r)
  {
    HeaderBytes(HeaderOf(r)) + r.key + r.value
  }

  /** `encode_kv`: the record's length paired with its bytes. */
  function EncodeKv(timestamp: int, key: seq<Byte>, value: seq<Byte>): (r: Result<(nat, seq<Byte>), Error>)
    ensures r.Success? <==> Encodable(timestamp, key, value)
    ensures r.Success? ==> r.value.0 == |r.value.1| == HEADER_SIZE + |key| + |value|
    ensures r.Success? ==> EncodeHeader(timestamp, |key|, |value|) == Success(r.value.1[..HEADER_SIZE])
    ensures r.Success? ==> r.value.1[HEADER_SIZE..HEADER_SIZE + |key|] == key
    ensures r.Success? ==> r.value.1[HEADER_SIZE + |key|..] == value
  {
    if Encodable(timestamp, key, value) then
      var b := EncodeRecord(Record(timestamp, key, value));
      assert b[..HEADER_SIZE] == HeaderBytes(Header(timestamp, |key|, |value|));
      Success((|b|, b))
    else
      Failure(OutOfRange)
  }

  /** `decode_kv`: the header from the first 12 bytes, then exactly
      `key_size + value_size` body bytes split into key and value. */
  function DecodeKv(data: seq<Byte>): (r: Result<Record, Error>)
    ensures r.Success? <==>
              |data| >= HEADER_SIZE && |data| == DeclaredSize(DecodeHeader(data[..HEADER_SIZE]).value)
    ensures r.Success? ==> DecodeHeader(data[..HEADER_SIZE]) == Success(HeaderOf(r.value))
    ensures r.Success? ==> data[HEADER_SIZE..] == r.value.key + r.value.value
  {
    var h :- DecodeHeader(if |data| < HEADER_SIZE then data else data[..HEADER_SIZE]);
    var body := data[HEADER_SIZE..];
    if |body| != h.keySize + h.valueSize then
      Failure(SizeMismatch(h.keySize + h.valueSize, |body|))
    else
      assert body == body[..h.keySize] + body[h.keySize..];
      Success(Record(h.timestamp, body[..h.keySize], body[h.keySize..]))
  }

  /** Decoding the bytes of a record gives the record back. */
  lemma RecordRoundTrip(r: Record)
    ensures DecodeKv(EncodeRecord(r)) == Success(r)
  {
    var b := EncodeRecord(r);
    assert b[..HEADER_SIZE] == HeaderBytes(HeaderOf(r));
    HeaderBytesRoundTrip(HeaderOf(r));
    assert b[HEADER_SIZE..] == r.key + r.value;
    assert (r.key + r.value)[..|r.key|] == r.key;
    assert (r.key + r.value)[|r.key|..] == r.value;
  }

  /** A buffer that decodes is exactly the encoding of what it decodes to. */
  lemma DecodedIsEncoding(data: seq<Byte>)
    requires DecodeKv(data).Success?
    ensures EncodeRecord(DecodeKv(data).value) == data
  {
    var r := DecodeKv(data).value;
    HeaderDecodeEncode(data[..HEADER_SIZE]);
    assert data == data[..HEADER_SIZE] + data[HEADER_SIZE..];
  }

  /** `decode_kv(encode_kv(t, k, v)[1]) == (t, k, v)`. */
  lemma KvRoundTrip(timestamp: int, key: seq<Byte>, value: seq<Byte>)
    requires Encodable(timestamp, key, value)
    ensures DecodeKv(EncodeKv(timestamp, key, value).value.1) == Success(Record(timestamp, key, value))
  {
    RecordRoundTrip(Record(timestamp, key, value));
  }

  /** Conversely, every buffer `decode_kv` accepts is what `encode_kv` produces
      for the decoded triple, so the codec is a bijection. */
  lemma KvDecodeEncode(data: seq<Byte>)
    requires DecodeKv(data).Success?
    ensures var r := DecodeKv(data).value;
            EncodeKv(r.timestamp, r.key, r.value) == Success((|data|, data))
  {
    DecodedIsEncoding(data);
  }

  /** Two records whose encodings overlap from the start, one no longer than the
      other's encoding, are the same record: a record cannot hide inside a
      strict prefix of another. */
  lemma EncodingPrefixFree(r1: Record, r2: Record)
    requires EncodeRecord(r1) <= EncodeRecord(r2)
    ensures r1 == r2
  {
    var b1, b2 := EncodeRecord(r1), EncodeRecord(r2);
    assert b1[..HEADER_SIZE] == HeaderBytes(HeaderOf(r1));
    assert b2[..HEADER_SIZE] == HeaderBytes(HeaderOf(r2));
    assert b1[..HEADER_SIZE] == b2[..HEADER_SIZE];
    HeaderBytesInjective(HeaderOf(r1), HeaderOf(r2));
    assert b1 == b2;
    RecordRoundTrip(r1);
    RecordRoundTrip(r2);
  }
}
