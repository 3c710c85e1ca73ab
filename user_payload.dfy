/**
 * The payload of a custom user event, as caml_runtime_events_user_write
 * prepares it. The serializer leaves len_bytes bytes at the start of the
 * write buffer; the payload is rounded up to whole 64-bit words with always
 * at least one byte to spare, and the last byte of the last word records how
 * many spare bytes precede it, so that a reader can recover len_bytes from
 * the word count alone. The buffer is then handed to write_to_ring as 64-bit
 * words; the reinterpretation of its bytes follows the host's byte order,
 * taken here to be little-endian.
 */
module UserPayload {

  import opened EventHeader

  /** An unsigned char of the OCaml bytes buffer. */
  type Byte = x: nat | x < 256

  /** len_64bit_word: (len_bytes + 8) / 8, one more word than len_bytes fills when it is a multiple of 8. */
  function WordLength(lenBytes: nat): nat
  {
    (lenBytes + 8) / 8
  }

  /** offset_index: the last byte of the last payload word. */
  function PadIndex(lenBytes: nat): nat
  {
    WordLength(lenBytes) * 8 - 1
  }

  /** The value stored at offset_index: the spare bytes between the payload and that byte. */
  function PadValue(lenBytes: nat): int
  {
    PadIndex(lenBytes) - lenBytes
  }

  /** How a reader recovers the payload length from the words and the last byte. */
  function RecoveredLength(words: nat, lastByte: nat): int
  {
    words * 8 - 1 - lastByte
  }

  /**
   * The rounding wastes fewer than eight bytes plus the marker: the words
   * hold the payload and the marker after it, the marker value fits a byte
   * (it lies in 0..7) and the marker never overwrites a payload byte.
   */
  lemma PaddingFits(lenBytes: nat)
    ensures lenBytes < WordLength(lenBytes) * 8 <= lenBytes + 8
    ensures 0 <= PadValue(lenBytes) < 8
    ensures lenBytes <= PadIndex(lenBytes) < WordLength(lenBytes) * 8
  {
    var n := WordLength(lenBytes);
    assert n * 8 <= lenBytes + 8 < n * 8 + 8;
  }

  /**
   * The length encoding is a bijection: a reader recovers len_bytes, and
   * every word count and marker value below 8 is the encoding of exactly the
   * length it decodes to.
   */
  lemma LengthRoundTrip(lenBytes: nat, words: nat, lastByte: nat)
    ensures RecoveredLength(WordLength(lenBytes), PadValue(lenBytes)) == lenBytes
    ensures lastByte < 8 && RecoveredLength(words, lastByte) == lenBytes ==>
              words == WordLength(lenBytes) && lastByte == PadValue(lenBytes)
  {
    if lastByte < 8 && RecoveredLength(words, lastByte) == lenBytes {
      assert lenBytes + 8 == words * 8 + (7 - lastByte);
      assert (lenBytes + 8) / 8 == words;
    }
  }

  /** 256^k. */
  function ByteRange(k: nat): (p: nat)
    ensures 0 < p
  {
    if k == 0 then 1 else 256 * ByteRange(k - 1)
  }

  /** The number whose little-endian bytes are b. */
  function LittleEndian(b: seq<Byte>): (v: nat)
    ensures v < ByteRange(|b|)
  {
    if |b| == 0 then 0 else b[0] + 256 * LittleEndian(b[1..])
  }

  /** The k low bytes of v, least significant first. */
  function BytesOf(v: nat, k: nat): (b: seq<Byte>)
    ensures |b| == k
  {
    if k == 0 then [] else [v % 256] + BytesOf(v / 256, k - 1)
  }

  lemma {:induction false} BytesOfLittleEndian(b: seq<Byte>)
    ensures BytesOf(LittleEndian(b), |b|) == b
  {
    if |b| > 0 {
      var v := LittleEndian(b);
      assert v % 256 == b[0] && v / 256 == LittleEndian(b[1..]);
      BytesOfLittleEndian(b[1..]);
    }
  }

  lemma {:induction false} LittleEndianBytesOf(v: nat, k: nat)
    requires v < ByteRange(k)
    ensures LittleEndian(BytesOf(v, k)) == v
  {
    if k > 0 {
      LittleEndianBytesOf(v / 256, k - 1);
      assert BytesOf(v, k)[1..] == BytesOf(v / 256, k - 1);
    }
  }

  lemma WordRange()
    ensures ByteRange(8) == WordLimit
  {
  }

  /** The 64-bit word the eight bytes b make on a little-endian host. */
  function WordOf(b: seq<Byte>): (w: Word)
    requires |b| == 8
    ensures BytesOf(w, 8) == b
  {
    WordRange();
    BytesOfLittleEndian(b);
    LittleEndian(b)
  }

  /** The first n words of a byte buffer, read as `uint64_t *`. */
  function Pack(bytes: seq<Byte>, n: nat): (ws: seq<Word>)
    requires n * 8 <= |bytes|
    ensures |ws| == n
  {
    if n == 0 then [] else [WordOf(bytes[..8])] + Pack(bytes[8..], n - 1)
  }

  /** The bytes of a sequence of words, as a reader sees them. */
  function Unpack(ws: seq<Word>): (bytes: seq<Byte>)
    ensures |bytes| == 8 * |ws|
  {
    if |ws| == 0 then [] else BytesOf(ws[0], 8) + Unpack(ws[1..])
  }

  /** Reading the words back gives exactly the bytes they were packed from. */
  lemma {:induction false} UnpackPack(bytes: seq<Byte>, n: nat)
    requires n * 8 <= |bytes|
    ensures Unpack(Pack(bytes, n)) == bytes[..n * 8]
  {
    if n > 0 {
      var ws := Pack(bytes, n);
      assert ws[1..] == Pack(bytes[8..], n - 1);
      UnpackPack(bytes[8..], n - 1);
      assert bytes[..n * 8] == bytes[..8] + bytes[8..][..(n - 1) * 8];
    }
  }

  /** The write buffer after `Bytes_val(write_buffer)[offset_index] = offset_index - len_bytes`. */
  function Marked(buffer: seq<Byte>, lenBytes: nat): (b: seq<Byte>)
    requires PadIndex(lenBytes) < |buffer|
    ensures |b| == |buffer|
  {
    PaddingFits(lenBytes);
    buffer[PadIndex(lenBytes) := PadValue(lenBytes)]
  }

  /** The store of the marker: `buf[offset_index] = offset_index - len_bytes`. */
  method StoreMarker(buffer: array<Byte>, lenBytes: nat)
    requires PadIndex(lenBytes) < buffer.Length
    modifies buffer
    ensures buffer[..] == Marked(old(buffer[..]), lenBytes)
  {
    PaddingFits(lenBytes);
    buffer[PadIndex(lenBytes)] := PadValue(lenBytes);
  }

  /**
   * The words of a custom event carry the serialized bytes unchanged, and
   * the last byte of the last word is the marker from which a reader
   * recovers their number.
   */
  lemma CustomPayloadReadsBack(buffer: seq<Byte>, lenBytes: nat)
    requires PadIndex(lenBytes) < |buffer|
    ensures var n := WordLength(lenBytes);
      var bytes := Unpack(Pack(Marked(buffer, lenBytes), n));
      && |bytes| == n * 8
      && bytes[..lenBytes] == buffer[..lenBytes]
      && RecoveredLength(n, bytes[n * 8 - 1]) == lenBytes
  {
    var n := WordLength(lenBytes);
    PaddingFits(lenBytes);
    UnpackPack(Marked(buffer, lenBytes), n);
    LengthRoundTrip(lenBytes, 0, 0);
  }
}
