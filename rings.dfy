/**
 * The mapped region as the producer sees it: the metadata header, one ring
 * per domain slot (its header's head and tail and its data words), and the
 * custom event name table. Each slot is its own object here; that the slots
 * of the single mapped block do not overlap is what Layout proves.
 */
module Rings {

  import opened EventHeader
  import opened RingWriter
  import Layout

  /** The contents of a name slot after `strncpy(slot, name, ID_LENGTH - 1)`. */
  function SlotName(name: string): (s: string)
    ensures |s| < Layout.CustomEventIdLength
    ensures |name| < Layout.CustomEventIdLength ==> s == name
    ensures |name| >= Layout.CustomEventIdLength ==> s == name[..Layout.CustomEventIdLength - 1]
  {
    if |name| < Layout.CustomEventIdLength then name else name[..Layout.CustomEventIdLength - 1]
  }

  /**
   * One domain's ring: ring_head and ring_tail of its buffer header, and the
   * ring_size_elements words of its data.
   */
  class RingBuffer {
    var head: nat
    var tail: nat
    const size: nat
    const data: array<Word>

    /** The ring as values. */
    ghost function State(): RingState
      reads this, data
    {
      RingState(head, tail, data[..])
    }

    /** The head and tail bound a chain of records that fits the ring. */
    ghost predicate Valid()
      reads this, data
    {
      0 < size == data.Length && head <= tail && tail - head < size && Chain(data[..], head, tail)
    }

    /** A ring whose head and tail were just reset to 0, over whatever words the file held. */
    constructor (size: nat)
      requires 0 < size
      ensures Valid() && this.size == size && head == 0 && tail == 0
      ensures fresh(data)
    {
      this.size := size;
      this.data := new Word[size];
      this.head := 0;
      this.tail := 0;
    }

    /**
     * The padding write_to_ring reserves: the words left before the physical
     * end of the ring when a record of `length` words would not fit before it,
     * and none otherwise.
     */
    method Padding(length: nat) returns (paddingRequired: nat)
      requires 0 < size
      ensures paddingRequired == PaddingRequired(tail, size, length)
      ensures length + paddingRequired == WriteSpan(tail, size, length)
    {
      var ringTailOffset := tail % size;
      var ringDistanceToEnd := size - ringTailOffset;
      paddingRequired := 0;
      if ringDistanceToEnd < length {
        paddingRequired := ringDistanceToEnd;
      }
    }

    /**
     * The eviction loop of write_to_ring: while `need` more words at the tail
     * would reach past head + ring size, advance the head past its record,
     * publishing each new head.
     */
    method AdvanceHead(need: nat)
      requires Valid() && need < size
      modifies this
      ensures tail == old(tail) && head == Evict(old(data[..]), old(head), tail, need)
      ensures head <= tail && Chain(data[..], head, tail) && tail + need - head < size
    {
      ghost var ring := data[..];
      var ringHead := head;
      var ringTail := tail;
      while ringTail + need - ringHead >= size
        invariant head == ringHead && tail == ringTail
        invariant ringHead <= ringTail && Chain(ring, ringHead, ringTail)
        invariant Evict(ring, ringHead, ringTail, need) == Evict(ring, old(head), ringTail, need)
        decreases ringTail - ringHead
      {
        var headHeader := data[ringHead % size];
        ringHead := ringHead + ItemLength(headHeader);
        head := ringHead;
      }
      EvictSound(ring, ringHead, ringTail, need);
    }

    /** memcpy of words into the ring, starting at offset at. */
    method Copy(at: nat, words: seq<Word>)
      requires at + |words| <= data.Length
      modifies data
      ensures data[..] == Overwrite(old(data[..]), at, words)
    {
      var k := 0;
      while k < |words|
        invariant 0 <= k <= |words|
        invariant data[..] == Overwrite(old(data[..]), at, words[..k])
      {
        data[at + k] := words[k];
        assert data[..] == Overwrite(old(data[..]), at, words[..k + 1]) by {
          forall i | 0 <= i < data.Length
            ensures data[i] == Overwrite(old(data[..]), at, words[..k + 1])[i]
          {
          }
        }
        k := k + 1;
      }
      assert words[..k] == words;
    }

    /**
     * The stores of write_to_ring once the head has moved: the padding record
     * when the record would straddle the end of the ring, then the header,
     * the timestamp and the payload, then the published tail.
     */
    method Store(msg: MessageType, eventId: nat, payload: seq<Word>, timestamp: Word, paddingRequired: nat)
      requires 0 < size == data.Length && eventId < IdLimit
      requires paddingRequired == PaddingRequired(tail, size, |payload| + 2)
      requires WriteSpan(tail, size, |payload| + 2) <= size
      modifies this, data
      ensures head == old(head)
      ensures tail == old(tail) + WriteSpan(old(tail), size, |payload| + 2)
      ensures data[..] == Appended(old(data[..]), Offset(old(tail), size),
                                   PaddingRequired(old(tail), size, |payload| + 2),
                                   Record(msg, eventId, timestamp, payload))
    {
      ghost var ring := data[..];
      var lengthWithHeaderTs := |payload| + 2;
      var ringTail := tail;
      var ringTailOffset := ringTail % size;
      ghost var pad := paddingRequired;
      ghost var o := ringTailOffset;
      ghost var padded: seq<Word> := if pad > 0 then ring[o := PaddingHeader(pad)] else ring;
      if paddingRequired > 0 {
        data[ringTailOffset] := PaddingHeader(paddingRequired);
        ringTail := ringTail + paddingRequired;
        tail := ringTail;
        ringTailOffset := 0;
      }
      assert ringTailOffset == RecordStart(o, pad) && data[..] == padded;
      data[ringTailOffset] := Header(lengthWithHeaderTs, msg, eventId);
      ringTailOffset := ringTailOffset + 1;
      data[ringTailOffset] := timestamp;
      ringTailOffset := ringTailOffset + 1;
      Copy(ringTailOffset, payload);
      tail := ringTail + lengthWithHeaderTs;
      StoresMakeAppended(ring, o, pad, msg, eventId, timestamp, payload);
    }

    /**
     * The stores of write_to_ring after eviction, on a ring whose head and
     * tail bound a chain with room for the padding and the record: the ring
     * is valid again afterwards.
     */
    method Append(msg: MessageType, eventId: nat, payload: seq<Word>, timestamp: Word, paddingRequired: nat)
      requires 0 < size == data.Length && eventId < IdLimit
      requires paddingRequired == PaddingRequired(tail, size, |payload| + 2)
      requires |payload| + 2 < MaxMsgLength
      requires head <= tail && Chain(data[..], head, tail) && tail + WriteSpan(tail, size, |payload| + 2) - head < size
      modifies this, data
      ensures Valid()
      ensures head == old(head)
      ensures tail == old(tail) + WriteSpan(old(tail), size, |payload| + 2)
      ensures data[..] == Appended(old(data[..]), Offset(old(tail), size),
                                   PaddingRequired(old(tail), size, |payload| + 2),
                                   Record(msg, eventId, timestamp, payload))
    {
      AppendKeepsRingChain(data[..], size, head, tail, msg, eventId, timestamp, payload);
      Store(msg, eventId, payload, timestamp, paddingRequired);
    }

    /**
     * write_to_ring(category, type, event_id, event_length, content,
     * word_offset) on this ring, with the timestamp as a parameter. A NULL
     * content is the empty sequence with event_length 0. The head is the
     * evicted head, the tail has moved past the padding and the record, and
     * the words are the appended ring; the ring stays valid.
     */
    method Write(msg: MessageType, eventId: nat, eventLength: nat, content: seq<Word>, wordOffset: nat,
                 timestamp: Word)
      requires Valid()
      requires eventLength + 2 < MaxMsgLength
      requires 2 * (eventLength + 2) <= size
      requires !(msg == Runtime(Internal) && eventId == 0)
      requires eventId < IdLimit
      requires wordOffset + eventLength <= |content|
      modifies this, data
      ensures Valid()
      ensures head == Evict(old(data[..]), old(head), old(tail), WriteSpan(old(tail), size, eventLength + 2))
      ensures tail == old(tail) + WriteSpan(old(tail), size, eventLength + 2)
      ensures data[..] == Appended(old(data[..]), Offset(old(tail), size),
                                   PaddingRequired(old(tail), size, eventLength + 2),
                                   Record(msg, eventId, timestamp, content[wordOffset .. wordOffset + eventLength]))
    {
      var lengthWithHeaderTs := eventLength + 2;
      ghost var ringTail := tail;
      ghost var ring := data[..];
      var paddingRequired := Padding(lengthWithHeaderTs);
      AdvanceHead(lengthWithHeaderTs + paddingRequired);
      assert data[..] == ring;
      var payload := content[wordOffset .. wordOffset + eventLength];
      Append(msg, eventId, payload, timestamp, paddingRequired);
    }
  }

  class Region {
    const meta: Layout.Metadata
    const maxDomains: nat
    const ringWords: nat
    const rings: seq<RingBuffer>
    const names: array<string>

    /** The shape fixed at creation: one ring of ringWords words per domain, none shared. */
    ghost predicate Shaped()
    {
      && 0 < ringWords
      && |rings| == maxDomains
      && (forall d :: 0 <= d < maxDomains ==> rings[d].size == ringWords)
      && (forall d, e :: 0 <= d < maxDomains && 0 <= e < maxDomains && d != e ==>
            rings[d] != rings[e] && rings[d].data != rings[e].data)
      && names.Length == Layout.MaxCustomEvents
    }

    /** The objects of the region the producer writes. */
    ghost function Repr(): set<object>
    {
      (set d | 0 <= d < |rings| :: rings[d]) + (set d | 0 <= d < |rings| :: rings[d].data)
    }

    ghost predicate Valid()
      reads rings, Repr()
    {
      Shaped() && forall d :: 0 <= d < maxDomains ==> rings[d].Valid()
    }

    /**
     * The region right after mmap and the header writes of
     * runtime_events_create_from_stw_single: every ring's head and tail reset
     * to 0, ring words and names as the backing file held them.
     */
    constructor (maxDomains: nat, ringWords: nat)
      requires 0 < ringWords
      ensures Valid() && this.maxDomains == maxDomains && this.ringWords == ringWords
      ensures meta == Layout.MakeMetadata(maxDomains, ringWords)
      ensures forall d :: 0 <= d < maxDomains ==> rings[d].head == 0 && rings[d].tail == 0
      ensures fresh(Repr()) && fresh(names)
    {
      var rs: seq<RingBuffer> := [];
      while |rs| < maxDomains
        invariant |rs| <= maxDomains
        invariant forall d :: 0 <= d < |rs| ==> fresh(rs[d]) && fresh(rs[d].data)
        invariant forall d :: 0 <= d < |rs| ==> rs[d].Valid() && rs[d].size == ringWords
        invariant forall d :: 0 <= d < |rs| ==> rs[d].head == 0 && rs[d].tail == 0
        invariant forall d, e :: 0 <= d < |rs| && 0 <= e < |rs| && d != e ==>
                    rs[d] != rs[e] && rs[d].data != rs[e].data
      {
        var ring := new RingBuffer(ringWords);
        rs := rs + [ring];
      }
      this.meta := Layout.MakeMetadata(maxDomains, ringWords);
      this.maxDomains := maxDomains;
      this.ringWords := ringWords;
      this.rings := rs;
      this.names := new string[Layout.MaxCustomEvents];
    }

    /** The ring of `domain` took one write_to_ring of this record and no other ring changed. */
    twostate predicate Wrote(domain: nat, msg: MessageType, eventId: nat, payload: seq<Word>, timestamp: Word)
      requires old(Valid()) && domain < maxDomains && Writable(ringWords, eventId, |payload|)
      reads rings, Repr()
    {
      && rings[domain].State() == WriteEffect(old(rings[domain].State()), ringWords, msg, eventId, timestamp, payload)
      && forall e :: 0 <= e < maxDomains && e != domain ==> rings[e].State() == old(rings[e].State())
    }

    /**
     * The region as the first write after creation leaves it: the ring of
     * `domain` holds exactly `record` from offset 0, every other ring is empty.
     */
    ghost predicate Started(domain: nat, record: seq<Word>)
      reads rings, Repr()
    {
      && domain < |rings| && |record| <= rings[domain].data.Length
      && rings[domain].head == 0 && rings[domain].tail == |record|
      && rings[domain].data[..|record|] == record
      && forall e :: 0 <= e < |rings| && e != domain ==> rings[e].head == 0 && rings[e].tail == 0
    }

    /** No ring changed. */
    twostate predicate Same()
      reads rings, Repr()
    {
      forall e :: 0 <= e < |rings| ==> rings[e].State() == old(rings[e].State())
    }

    /**
     * write_to_ring on the ring of `domain` (Caml_state->id): that ring
     * takes the write effect and no other ring changes.
     */
    method Write(domain: nat, msg: MessageType, eventId: nat, eventLength: nat,
                 content: seq<Word>, wordOffset: nat, timestamp: Word)
      requires Valid() && domain < maxDomains
      requires Writable(ringWords, eventId, eventLength)
      requires !(msg == Runtime(Internal) && eventId == 0)
      requires wordOffset + eventLength <= |content|
      modifies rings[domain], rings[domain].data
      ensures Valid()
      ensures Wrote(domain, msg, eventId, content[wordOffset .. wordOffset + eventLength], timestamp)
    {
      rings[domain].Write(msg, eventId, eventLength, content, wordOffset, timestamp);
    }
  }
}
