/**
 * Layout of the shared region that backs all rings: the metadata header, one
 * ring header (head and tail) per domain slot, one ring data array per domain
 * slot, then the table of custom event names.
 *
 * The sizes of the C structures come from runtime/caml/runtime_events.h, which
 * is not part of this model: the metadata header holds the eight 64-bit
 * fields filled in by runtime_events_create_from_stw_single, a ring header
 * holds head, tail and eight padding words, and a custom event descriptor is
 * a name of RUNTIME_EVENTS_CUSTOM_EVENT_ID_LENGTH bytes. Only the facts that
 * these sizes are positive enter the proofs below.
 */
module Layout {

  import opened Arith

  const Version: nat := 1
  const WordBytes: nat := 8
  const MetadataHeaderSize: nat := 64
  const BufferHeaderSize: nat := 80
  const CustomEventIdLength: nat := 128
  const CustomEventSize: nat := CustomEventIdLength
  const MaxCustomEvents: nat := 8192

  /** The fields of struct runtime_events_metadata_header. */
  datatype Metadata = Metadata(
    version: nat,
    maxDomains: nat,
    ringHeaderSizeBytes: nat,
    ringSizeBytes: nat,
    ringSizeElements: nat,
    headersOffset: nat,
    dataOffset: nat,
    customEventsOffset: nat)

  /** current_ring_total_size: the byte size given to ftruncate and mmap. */
  function TotalSize(maxDomains: nat, ringWords: nat): nat
  {
    MaxCustomEvents * CustomEventSize
      + maxDomains * (ringWords * WordBytes + BufferHeaderSize)
      + MetadataHeaderSize
  }

  /** The value a C `int` holds after an assignment: two's complement on 32 bits. */
  function AsCInt(n: int): (r: int)
    ensures -0x8000_0000 <= r < 0x8000_0000
    ensures (r - n) % 0x1_0000_0000 == 0
  {
    var m := n % 0x1_0000_0000;
    if m < 0x8000_0000 then m else m - 0x1_0000_0000
  }

  /**
   * The total size is stored in a C `int`: with the default 128 domains and
   * rings of 2^21 words it no longer fits, and the value given to ftruncate
   * and mmap is negative.
   */
  lemma TotalSizeOverflowsCInt()
    ensures TotalSize(128, 0x20_0000) == 2148542528
    ensures 0x8000_0000 <= TotalSize(128, 0x20_0000)
    ensures AsCInt(TotalSize(128, 0x20_0000)) == -2146424768
  {
  }

  /**
   * The metadata header written at the start of a fresh region. The three
   * areas follow each other without gaps and the custom event table ends
   * exactly at the end of the region.
   */
  function MakeMetadata(maxDomains: nat, ringWords: nat): (m: Metadata)
    ensures m.version == Version && m.maxDomains == maxDomains
    ensures m.ringSizeElements == ringWords && m.ringSizeBytes == ringWords * WordBytes
    ensures m.ringHeaderSizeBytes == BufferHeaderSize
    ensures m.headersOffset == MetadataHeaderSize
    ensures m.dataOffset == m.headersOffset + maxDomains * m.ringHeaderSizeBytes
    ensures m.customEventsOffset == m.dataOffset + maxDomains * m.ringSizeBytes
    ensures m.customEventsOffset + MaxCustomEvents * CustomEventSize == TotalSize(maxDomains, ringWords)
  {
    var headersLength := maxDomains * BufferHeaderSize;
    var dataLength := maxDomains * (ringWords * WordBytes);
    assert maxDomains * (ringWords * WordBytes + BufferHeaderSize) == dataLength + headersLength;
    Metadata(Version, maxDomains, BufferHeaderSize, ringWords * WordBytes, ringWords,
             MetadataHeaderSize, MetadataHeaderSize + headersLength,
             MetadataHeaderSize + headersLength + dataLength)
  }

  /** get_ring_buffer_by_domain_id: byte offset of a domain's ring header. */
  function RingHeaderOffset(m: Metadata, domain: nat): nat
  {
    m.headersOffset + domain * m.ringHeaderSizeBytes
  }

  /** Byte offset of a domain's ring data, as write_to_ring computes ring_ptr. */
  function RingDataOffset(m: Metadata, domain: nat): nat
  {
    m.dataOffset + domain * m.ringSizeBytes
  }

  /** Byte offset of a custom event's name slot, as events_register_write_buffer computes it. */
  function CustomEventOffset(m: Metadata, index: nat): nat
  {
    m.customEventsOffset + index * CustomEventSize
  }

  /**
   * Every domain slot's ring header lies in the header area and its ring data
   * in the data area, and both areas lie inside the region.
   */
  lemma DomainAreasInside(maxDomains: nat, ringWords: nat, domain: nat)
    requires domain < maxDomains
    ensures var m := MakeMetadata(maxDomains, ringWords);
      && MetadataHeaderSize <= RingHeaderOffset(m, domain)
      && RingHeaderOffset(m, domain) + m.ringHeaderSizeBytes <= m.dataOffset
      && m.dataOffset <= RingDataOffset(m, domain)
      && RingDataOffset(m, domain) + m.ringSizeBytes <= m.customEventsOffset
      && m.customEventsOffset <= TotalSize(maxDomains, ringWords)
  {
    var m := MakeMetadata(maxDomains, ringWords);
    MulLe(domain + 1, maxDomains, m.ringHeaderSizeBytes);
    MulLe(domain + 1, maxDomains, m.ringSizeBytes);
  }

  /** Distinct domain slots have disjoint ring headers and disjoint ring data. */
  lemma DomainAreasDisjoint(maxDomains: nat, ringWords: nat, i: nat, j: nat)
    requires i < j < maxDomains
    ensures var m := MakeMetadata(maxDomains, ringWords);
      && RingHeaderOffset(m, i) + m.ringHeaderSizeBytes <= RingHeaderOffset(m, j)
      && RingDataOffset(m, i) + m.ringSizeBytes <= RingDataOffset(m, j)
  {
    var m := MakeMetadata(maxDomains, ringWords);
    MulLe(i + 1, j, m.ringHeaderSizeBytes);
    MulLe(i + 1, j, m.ringSizeBytes);
  }

  /** Word k of domain d's ring is word d * ringWords + k of the data area. */
  lemma RingWordAddress(maxDomains: nat, ringWords: nat, domain: nat, k: nat)
    ensures var m := MakeMetadata(maxDomains, ringWords);
      RingDataOffset(m, domain) + k * WordBytes == m.dataOffset + (domain * ringWords + k) * WordBytes
  {
  }

  /** Every slot below MaxCustomEvents lies inside the custom event table. */
  lemma CustomSlotInside(maxDomains: nat, ringWords: nat, index: nat)
    requires index < MaxCustomEvents
    ensures var m := MakeMetadata(maxDomains, ringWords);
      && m.customEventsOffset <= CustomEventOffset(m, index)
      && CustomEventOffset(m, index) + CustomEventSize <= TotalSize(maxDomains, ringWords)
  {
    var m := MakeMetadata(maxDomains, ringWords);
    MulLe(index + 1, MaxCustomEvents, CustomEventSize);
  }

  /** The slot with index MaxCustomEvents starts at the end of the region. */
  lemma SlotAtCapacityIsOutside(maxDomains: nat, ringWords: nat)
    ensures var m := MakeMetadata(maxDomains, ringWords);
      CustomEventOffset(m, MaxCustomEvents) == TotalSize(maxDomains, ringWords)
  {
  }
}
