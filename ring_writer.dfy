/**
 * The per-domain ring and write_to_ring, its single writer.
 *
 * A ring is a circular array of `size` 64-bit words. Its `head` and `tail`
 * are logical indices that only grow; word `i` of the logical stream lives at
 * physical offset `i % size` (the source computes `i & (size - 1)`, the same
 * value for a power-of-two size). The records between head and tail form a
 * chain: the header at head gives the length of the first record, the header
 * after it the length of the next, and so on up to tail exactly. The writer
 * evicts whole records from the head until the new record fits behind the
 * tail, pads to the physical end instead of letting a record straddle it, and
 * publishes the new tail last.
 */
module RingWriter {

  import opened Arith
  import opened EventHeader

  /** Physical offset of a logical index. */
  function Offset(index: nat, size: nat): (o: nat)
    requires 0 < size
    ensures o < size
  {
    index % size
  }

  /**
   * From head, the records step along their decoded lengths, each at least
   * one word, and land exactly on tail.
   */
  ghost predicate Chain(ring: seq<Word>, head: nat, tail: nat)
    requires 0 < |ring|
    decreases tail - head
  {
    head == tail ||
    (head < tail &&
     var n := ItemLength(ring[Offset(head, |ring|)]);
     1 <= n <= tail - head && Chain(ring, head + n, tail))
  }

  /**
   * The head after the eviction loop of write_to_ring: while writing `need`
   * more words at tail would reach head + size, drop the record at head.
   */
  ghost function Evict(ring: seq<Word>, head: nat, tail: nat, need: nat): nat
    requires 0 < |ring| && Chain(ring, head, tail) && need < |ring|
    decreases tail - head
  {
    if tail + need - head >= |ring| then
      Evict(ring, head + ItemLength(ring[Offset(head, |ring|)]), tail, need)
    else head
  }

  /**
   * padding_required: the distance to the physical end when a record of
   * `length` words would not fit before it, otherwise 0.
   */
  function PaddingRequired(tail: nat, size: nat, length: nat): (pad: nat)
    requires 0 < size
    ensures pad > 0 ==> pad == size - Offset(tail, size) && pad < length && Offset(tail + pad, size) == 0
    ensures pad == 0 ==> Offset(tail, size) + length <= size
  {
    var distance := size - Offset(tail, size);
    if distance < length then
      ModToEnd(tail, size);
      distance
    else 0
  }

  /** The words a write of a record of the given length takes at the tail: its padding and itself. */
  function WriteSpan(tail: nat, size: nat, length: nat): (n: nat)
    requires 0 < size
    ensures n >= length
    ensures n == length <==> Offset(tail, size) + length <= size
  {
    PaddingRequired(tail, size, length) + length
  }

  /** A record: header word, timestamp word, payload words. */
  function Record(msg: MessageType, eventId: nat, timestamp: Word, payload: seq<Word>): (r: seq<Word>)
    requires eventId < IdLimit
    ensures |r| == |payload| + 2
  {
    [Header(|payload| + 2, msg, eventId), timestamp] + payload
  }

  /** Physical offset where a record starts after the padding decision. */
  function RecordStart(tailOffset: nat, pad: nat): nat
  {
    if pad > 0 then 0 else tailOffset
  }

  /**
   * The ring after the writes of write_to_ring: the padding word at the old
   * tail offset when padding is required, then the record at its start
   * offset; every other word as before.
   */
  ghost function Appended(ring: seq<Word>, tailOffset: nat, pad: nat, record: seq<Word>): (r: seq<Word>)
    requires tailOffset < |ring| && RecordStart(tailOffset, pad) + |record| <= |ring|
    ensures |r| == |ring|
  {
    var start := RecordStart(tailOffset, pad);
    seq(|ring|, i requires 0 <= i < |ring| =>
      if start <= i < start + |record| then record[i - start]
      else if pad > 0 && i == tailOffset then PaddingHeader(pad)
      else ring[i])
  }

  /** s with the words at offsets [at, at + |words|) replaced by words: what memcpy does. */
  ghost function Overwrite(s: seq<Word>, at: nat, words: seq<Word>): (r: seq<Word>)
    requires at + |words| <= |s|
    ensures |r| == |s|
  {
    seq(|s|, i requires 0 <= i < |s| => if at <= i < at + |words| then words[i - at] else s[i])
  }

  /**
   * The individual stores of write_to_ring (the padding word if any, the
   * header, the timestamp, then the payload copy) build the appended ring.
   */
  lemma StoresMakeAppended(ring: seq<Word>, tailOffset: nat, pad: nat, msg: MessageType, eventId: nat,
                           timestamp: Word, payload: seq<Word>)
    requires eventId < IdLimit
    requires tailOffset < |ring| && RecordStart(tailOffset, pad) + 2 + |payload| <= |ring|
    ensures var start := RecordStart(tailOffset, pad);
      var padded := if pad > 0 then ring[tailOffset := PaddingHeader(pad)] else ring;
      Overwrite(padded[start := Header(|payload| + 2, msg, eventId)][start + 1 := timestamp], start + 2, payload)
        == Appended(ring, tailOffset, pad, Record(msg, eventId, timestamp, payload))
  {
    var start := RecordStart(tailOffset, pad);
    var padded := if pad > 0 then ring[tailOffset := PaddingHeader(pad)] else ring;
    var record := Record(msg, eventId, timestamp, payload);
    var left := Overwrite(padded[start := record[0]][start + 1 := timestamp], start + 2, payload);
    var right := Appended(ring, tailOffset, pad, record);
    forall i | 0 <= i < |ring|
      ensures left[i] == right[i]
    {
    }
  }

  // Properties of the chain.

  /** A single record whose header gives its length n is a chain of n words. */
  lemma OneRecord(ring: seq<Word>, at: nat, n: nat)
    requires 0 < |ring| && 1 <= n && ItemLength(ring[Offset(at, |ring|)]) == n
    ensures Chain(ring, at, at + n)
  {
    assert Chain(ring, at + n, at + n);
  }

  /** Two records back to back, of n and m words, chain over n + m words. */
  lemma TwoRecords(ring: seq<Word>, at: nat, n: nat, m: nat)
    requires 0 < |ring| && 1 <= n && 1 <= m
    requires ItemLength(ring[Offset(at, |ring|)]) == n && ItemLength(ring[Offset(at + n, |ring|)]) == m
    ensures Chain(ring, at, at + n + m)
  {
    OneRecord(ring, at + n, m);
  }

  /** Two chains that meet join into one. */
  lemma {:induction false} ChainJoin(ring: seq<Word>, a: nat, b: nat, c: nat)
    requires 0 < |ring| && Chain(ring, a, b) && Chain(ring, b, c)
    ensures Chain(ring, a, c)
    decreases b - a
  {
    if a < b {
      var n := ItemLength(ring[Offset(a, |ring|)]);
      ChainJoin(ring, a + n, b, c);
    }
  }

  /** A chain is only about the words at the physical offsets of [head, tail). */
  lemma {:induction false} ChainFrame(ring: seq<Word>, ring': seq<Word>, head: nat, tail: nat)
    requires 0 < |ring| == |ring'| && Chain(ring, head, tail)
    requires forall i :: head <= i < tail ==> ring'[Offset(i, |ring|)] == ring[Offset(i, |ring|)]
    ensures Chain(ring', head, tail)
    decreases tail - head
  {
    if head < tail {
      var n := ItemLength(ring[Offset(head, |ring|)]);
      ChainFrame(ring, ring', head + n, tail);
    }
  }

  /**
   * Eviction only moves the head forward along the chain, never past the
   * tail, and stops as soon as `need` more words fit below head + size.
   */
  lemma {:induction false} EvictSound(ring: seq<Word>, head: nat, tail: nat, need: nat)
    requires 0 < |ring| && Chain(ring, head, tail) && need < |ring|
    ensures head <= Evict(ring, head, tail, need) <= tail
    ensures Chain(ring, Evict(ring, head, tail, need), tail)
    ensures tail + need - Evict(ring, head, tail, need) < |ring|
    ensures tail + need - head < |ring| ==> Evict(ring, head, tail, need) == head
    decreases tail - head
  {
    if tail + need - head >= |ring| {
      var n := ItemLength(ring[Offset(head, |ring|)]);
      EvictSound(ring, head + n, tail, need);
    }
  }

  /**
   * Appending at the tail leaves the words of the live records, those at the
   * offsets of [head, tail), untouched, provided everything fits the window.
   */
  lemma AppendKeepsLive(ring: seq<Word>, head: nat, tail: nat, pad: nat, record: seq<Word>)
    requires 0 < |ring| && head <= tail && 0 < |record|
    requires pad == PaddingRequired(tail, |ring|, |record|)
    requires tail + pad + |record| - head < |ring|
    ensures forall i :: head <= i < tail ==>
      Appended(ring, Offset(tail, |ring|), pad, record)[Offset(i, |ring|)] == ring[Offset(i, |ring|)]
  {
    var w, len := |ring|, |record|;
    var o := Offset(tail, w);
    var ring' := Appended(ring, o, pad, record);
    var start := RecordStart(o, pad);
    forall i | head <= i < tail
      ensures ring'[Offset(i, w)] == ring[Offset(i, w)]
    {
      ModBack(tail, tail - i, w);
      if pad > 0 {
        assert start == 0 && Offset(i, w) >= len && Offset(i, w) != o;
      } else {
        assert !(o <= Offset(i, w) < o + len);
      }
    }
  }

  /**
   * A record whose header word gives its own length: the form every record
   * write_to_ring appends has, and what the chain lemmas below need of it.
   */
  ghost predicate SelfDescribing(record: seq<Word>)
  {
    0 < |record| < MaxMsgLength && ItemLength(record[0]) == |record|
  }

  /** Records built by write_to_ring describe their own length. */
  lemma RecordSelfDescribing(msg: MessageType, eventId: nat, timestamp: Word, payload: seq<Word>)
    requires |payload| + 2 < MaxMsgLength && eventId < IdLimit
    ensures SelfDescribing(Record(msg, eventId, timestamp, payload))
  {
    HeaderLengthExact(|payload| + 2, msg, eventId);
  }

  /** The padding record (if any) and the new record chain from the old tail to the new one. */
  lemma AppendChainsNew(ring: seq<Word>, tail: nat, record: seq<Word>)
    requires 0 < |ring| && SelfDescribing(record)
    requires PaddingRequired(tail, |ring|, |record|) + |record| <= |ring|
    ensures var pad := PaddingRequired(tail, |ring|, |record|);
      Chain(Appended(ring, Offset(tail, |ring|), pad, record), tail, tail + pad + |record|)
  {
    var w, len := |ring|, |record|;
    var pad := PaddingRequired(tail, w, len);
    var ring' := Appended(ring, Offset(tail, w), pad, record);
    if pad > 0 {
      assert ItemLength(ring'[Offset(tail, w)]) == pad by {
        HeaderLengthExact(pad, Runtime(Internal), 0);
      }
      assert ItemLength(ring'[Offset(tail + pad, w)]) == len;
      TwoRecords(ring', tail, pad, len);
    } else {
      assert ItemLength(ring'[Offset(tail, w)]) == len;
      OneRecord(ring', tail, len);
    }
  }

  /**
   * The heart of write_to_ring's correctness: when the record and its padding
   * fit in the window that eviction left, the appended ring still chains from
   * head to the new tail, through the padding record (if any) and the new one.
   */
  lemma AppendKeepsChain(ring: seq<Word>, head: nat, tail: nat, record: seq<Word>)
    requires 0 < |ring| && Chain(ring, head, tail) && SelfDescribing(record)
    requires tail + PaddingRequired(tail, |ring|, |record|) + |record| - head < |ring|
    ensures var pad := PaddingRequired(tail, |ring|, |record|);
      Chain(Appended(ring, Offset(tail, |ring|), pad, record), head, tail + pad + |record|)
  {
    var w, len := |ring|, |record|;
    var pad := PaddingRequired(tail, w, len);
    var ring' := Appended(ring, Offset(tail, w), pad, record);
    AppendKeepsLive(ring, head, tail, pad, record);
    ChainFrame(ring, ring', head, tail);
    AppendChainsNew(ring, tail, record);
    ChainJoin(ring', head, tail, tail + pad + len);
  }

  /**
   * The append step of write_to_ring in the terms the region uses: appending
   * at tail, with the padding it decides on, keeps the chain from head.
   */
  lemma AppendKeepsRingChain(ring: seq<Word>, size: nat, head: nat, tail: nat, msg: MessageType,
                             eventId: nat, timestamp: Word, payload: seq<Word>)
    requires |ring| == size && 0 < size && Chain(ring, head, tail)
    requires |payload| + 2 < MaxMsgLength && eventId < IdLimit
    requires tail + WriteSpan(tail, size, |payload| + 2) - head < size
    ensures Chain(Appended(ring, Offset(tail, size), PaddingRequired(tail, size, |payload| + 2),
                           Record(msg, eventId, timestamp, payload)),
                  head, tail + WriteSpan(tail, size, |payload| + 2))
  {
    RecordSelfDescribing(msg, eventId, timestamp, payload);
    AppendKeepsChain(ring, head, tail, Record(msg, eventId, timestamp, payload));
  }

  /** A ring as values: the head and tail of its buffer header and its data words. */
  datatype RingState = RingState(head: nat, tail: nat, words: seq<Word>)

  /** The head and tail bound a chain of records that fits a ring of `size` words. */
  ghost predicate RingValid(s: RingState, size: nat)
  {
    0 < size == |s.words| && s.head <= s.tail && s.tail - s.head < size && Chain(s.words, s.head, s.tail)
  }

  /** What write_to_ring demands of a record: its length fits the header and half the ring. */
  predicate Writable(size: nat, eventId: nat, length: nat)
  {
    length + 2 < MaxMsgLength && 2 * (length + 2) <= size && eventId < IdLimit
  }

  /**
   * A ring after write_to_ring appends Record(msg, eventId, timestamp,
   * payload): the head evicted for the padding and the record, the tail past
   * both, the words with both stored.
   */
  ghost function WriteEffect(s: RingState, size: nat, msg: MessageType, eventId: nat, timestamp: Word,
                             payload: seq<Word>): RingState
    requires RingValid(s, size) && Writable(size, eventId, |payload|)
  {
    var span := WriteSpan(s.tail, size, |payload| + 2);
    RingState(Evict(s.words, s.head, s.tail, span), s.tail + span,
              Appended(s.words, Offset(s.tail, size), PaddingRequired(s.tail, size, |payload| + 2),
                       Record(msg, eventId, timestamp, payload)))
  }

  /**
   * write_to_ring keeps a ring valid: the records from the evicted head
   * still chain to the new tail, which is less than a ring's size ahead.
   */
  lemma WriteKeepsRingValid(s: RingState, size: nat, msg: MessageType, eventId: nat, timestamp: Word,
                            payload: seq<Word>)
    requires RingValid(s, size) && Writable(size, eventId, |payload|)
    ensures RingValid(WriteEffect(s, size, msg, eventId, timestamp, payload), size)
  {
    var span := WriteSpan(s.tail, size, |payload| + 2);
    EvictSound(s.words, s.head, s.tail, span);
    AppendKeepsRingChain(s.words, size, Evict(s.words, s.head, s.tail, span), s.tail,
                         msg, eventId, timestamp, payload);
  }

  /**
   * The head only moves forward, at most to the old tail, and the tail
   * advances by the padding plus the record, header and timestamp included.
   */
  lemma WriteMovesHeadAndTail(s: RingState, size: nat, msg: MessageType, eventId: nat, timestamp: Word,
                              payload: seq<Word>)
    requires RingValid(s, size) && Writable(size, eventId, |payload|)
    ensures var r := WriteEffect(s, size, msg, eventId, timestamp, payload);
      && s.head <= r.head <= s.tail
      && r.tail == s.tail + PaddingRequired(s.tail, size, |payload| + 2) + |payload| + 2
      && (s.tail + |payload| + 2 + PaddingRequired(s.tail, size, |payload| + 2) - s.head < size ==> r.head == s.head)
  {
    EvictSound(s.words, s.head, s.tail, WriteSpan(s.tail, size, |payload| + 2));
  }

  /** Where the padding and the record end up in the appended ring. */
  lemma AppendedHolds(ring: seq<Word>, tailOffset: nat, pad: nat, record: seq<Word>)
    requires tailOffset < |ring| && RecordStart(tailOffset, pad) + |record| <= |ring|
    requires pad > 0 ==> tailOffset >= |record|
    ensures var r, start := Appended(ring, tailOffset, pad, record), RecordStart(tailOffset, pad);
      && r[start .. start + |record|] == record
      && (pad > 0 ==> r[tailOffset] == PaddingHeader(pad))
  {
    var r, start := Appended(ring, tailOffset, pad, record), RecordStart(tailOffset, pad);
    assert r[start .. start + |record|] == record by {
      forall k | 0 <= k < |record|
        ensures r[start .. start + |record|][k] == record[k]
      {
        assert r[start + k] == record[k];
      }
    }
  }

  /** Appending changes no word outside the record and the padding word. */
  lemma AppendedElsewhere(ring: seq<Word>, tailOffset: nat, pad: nat, record: seq<Word>, i: nat)
    requires tailOffset < |ring| && RecordStart(tailOffset, pad) + |record| <= |ring| && i < |ring|
    requires !(RecordStart(tailOffset, pad) <= i < RecordStart(tailOffset, pad) + |record|)
    requires !(pad > 0 && i == tailOffset)
    ensures Appended(ring, tailOffset, pad, record)[i] == ring[i]
  {
  }

  /**
   * No straddling: where the record would not fit before the physical end,
   * the old tail offset holds a padding word of exactly the distance to the
   * end and the record starts at offset 0; otherwise it starts at the old
   * tail offset. Either way it ends at or before the physical end.
   */
  lemma WritePadsToEnd(ring: seq<Word>, size: nat, tail: nat, msg: MessageType, eventId: nat,
                       timestamp: Word, payload: seq<Word>)
    requires |ring| == size && Writable(size, eventId, |payload|)
    ensures var o, pad := Offset(tail, size), PaddingRequired(tail, size, |payload| + 2);
      var w := Appended(ring, o, pad, Record(msg, eventId, timestamp, payload));
      && (pad > 0 <==> o + |payload| + 2 > size)
      && (pad > 0 ==> pad == size - o && Offset(tail + pad, size) == 0 && w[o] == PaddingHeader(pad) &&
                      ItemLength(w[o]) == pad)
      && (pad == 0 ==> Offset(tail + pad, size) == o)
      && Offset(tail + pad, size) + |payload| + 2 <= size
  {
    var o, pad := Offset(tail, size), PaddingRequired(tail, size, |payload| + 2);
    var record := Record(msg, eventId, timestamp, payload);
    assert Offset(tail + pad, size) == RecordStart(o, pad);
    AppendedHolds(ring, o, pad, record);
    if pad > 0 {
      HeaderLengthExact(pad, msg, eventId);
    }
  }

  /** The header of a record decodes to its length, category, type and id. */
  lemma RecordFields(msg: MessageType, eventId: nat, timestamp: Word, payload: seq<Word>)
    requires |payload| + 2 < MaxMsgLength && eventId < IdLimit
    ensures var r := Record(msg, eventId, timestamp, payload);
      && ItemLength(r[0]) == |payload| + 2
      && ItemIsRuntime(r[0]) == msg.IsRuntime()
      && ItemType(r[0]) == msg.Code()
      && ItemId(r[0]) == eventId
      && r[1] == timestamp
      && r[2..] == payload
  {
    HeaderFields(|payload| + 2, msg, eventId);
  }

  /**
   * A reader finds the record written where WritePadsToEnd puts it: its
   * header decodes to its length, category, type and id, and the timestamp
   * and the payload follow. (These are the words of WriteEffect.)
   */
  lemma WriteReadsBack(ring: seq<Word>, size: nat, tail: nat, msg: MessageType, eventId: nat,
                       timestamp: Word, payload: seq<Word>)
    requires |ring| == size && Writable(size, eventId, |payload|)
    ensures var o, pad := Offset(tail, size), PaddingRequired(tail, size, |payload| + 2);
      var w := Appended(ring, o, pad, Record(msg, eventId, timestamp, payload));
      var start := Offset(tail + pad, size);
      && start + |payload| + 2 <= size
      && ItemLength(w[start]) == |payload| + 2
      && ItemIsRuntime(w[start]) == msg.IsRuntime()
      && ItemType(w[start]) == msg.Code()
      && ItemId(w[start]) == eventId
      && w[start + 1] == timestamp
      && w[start + 2 .. start + 2 + |payload|] == payload
  {
    var record := Record(msg, eventId, timestamp, payload);
    var w, start := RecordWritten(ring, size, tail, record);
    RecordFields(msg, eventId, timestamp, payload);
    var got := w[start .. start + |record|];
    assert w[start] == got[0] == record[0];
    assert w[start + 1] == got[1] == record[1];
    assert w[start + 2 .. start + 2 + |payload|] == got[2..] == record[2..];
  }

  /** The record appended sits, whole, at Offset(tail + pad, size). */
  lemma RecordWritten(ring: seq<Word>, size: nat, tail: nat, record: seq<Word>)
    returns (w: seq<Word>, start: nat)
    requires |ring| == size && 2 <= |record| < MaxMsgLength && 2 * |record| <= size
    ensures w == Appended(ring, Offset(tail, size), PaddingRequired(tail, size, |record|), record)
    ensures start == Offset(tail + PaddingRequired(tail, size, |record|), size)
    ensures start + |record| <= size && w[start .. start + |record|] == record
  {
    var o, pad := Offset(tail, size), PaddingRequired(tail, size, |record|);
    w := Appended(ring, o, pad, record);
    start := RecordStart(o, pad);
    assert Offset(tail + pad, size) == start;
    AppendedHolds(ring, o, pad, record);
  }

  /**
   * A reader tells padding from records: the header of the record written
   * reads as padding exactly when the record carries the reserved triple
   * (runtime, EV_INTERNAL, 0), so that of every record RingBuffer.Write
   * accepts does not; the padding word, when there is one, reads as padding
   * and as the distance to the end of the ring, cut to ten bits.
   */
  lemma WriteTellsPaddingApart(ring: seq<Word>, size: nat, tail: nat, msg: MessageType, eventId: nat,
                               timestamp: Word, payload: seq<Word>)
    requires |ring| == size && Writable(size, eventId, |payload|)
    ensures var o, pad := Offset(tail, size), PaddingRequired(tail, size, |payload| + 2);
      var w := Appended(ring, o, pad, Record(msg, eventId, timestamp, payload));
      var start := Offset(tail + pad, size);
      && start < size
      && (IsPadding(w[start]) <==> msg == Runtime(Internal) && eventId == 0)
      && (pad > 0 ==> IsPadding(w[o]) && ItemLength(w[o]) == pad % MaxMsgLength)
  {
    var o, pad := Offset(tail, size), PaddingRequired(tail, size, |payload| + 2);
    var record := Record(msg, eventId, timestamp, payload);
    WriteReadsBack(ring, size, tail, msg, eventId, timestamp, payload);
    HeaderIsPaddingIff(|payload| + 2, msg, eventId, pad);
    RecordFields(msg, eventId, timestamp, payload);
    if pad > 0 {
      AppendedHolds(ring, o, pad, record);
      PaddingFields(pad);
    }
  }

  /**
   * The words of every record the write did not evict, those at the
   * offsets of [new head, old tail), are as they were.
   */
  lemma WriteKeepsSurvivors(s: RingState, size: nat, msg: MessageType, eventId: nat, timestamp: Word,
                            payload: seq<Word>)
    requires RingValid(s, size) && Writable(size, eventId, |payload|)
    ensures var r := WriteEffect(s, size, msg, eventId, timestamp, payload);
      forall i :: r.head <= i < s.tail ==> r.words[Offset(i, size)] == s.words[Offset(i, size)]
  {
    var span := WriteSpan(s.tail, size, |payload| + 2);
    EvictSound(s.words, s.head, s.tail, span);
    AppendKeepsLive(s.words, Evict(s.words, s.head, s.tail, span), s.tail,
                    PaddingRequired(s.tail, size, |payload| + 2), Record(msg, eventId, timestamp, payload));
  }

  /**
   * The first write into a ring whose head and tail were just reset: nothing
   * is evicted, no padding is needed, and the record fills the first words.
   */
  lemma FirstWrite(words: seq<Word>, size: nat, msg: MessageType, eventId: nat, timestamp: Word,
                   payload: seq<Word>)
    requires |words| == size && Writable(size, eventId, |payload|)
    ensures RingValid(RingState(0, 0, words), size)
    ensures var r := WriteEffect(RingState(0, 0, words), size, msg, eventId, timestamp, payload);
      r.head == 0 && r.tail == |payload| + 2 && r.words[..|payload| + 2] == Record(msg, eventId, timestamp, payload)
  {
    var record := Record(msg, eventId, timestamp, payload);
    assert Chain(words, 0, 0);
    EvictSound(words, 0, 0, WriteSpan(0, size, |payload| + 2));
    AppendedHolds(words, 0, 0, record);
  }
}
