# Runtime events producer, modelled in Dafny

OCaml's runtime can trace itself into a memory-mapped file. The file holds one
circular ring of 64-bit words per domain, plus a table of custom event names.
This project models the producer side of that transport, which lives in
`runtime/runtime_events.c`:

- `write_to_ring`, the single writer of a domain's ring;
- the arithmetic that lays out the mapped region;
- the lifecycle of tracing: create, teardown, destroy, post-fork, pause,
  resume and `ring_is_active`;
- the `caml_ev_*` encoders, the allocation histogram and its flush;
- the custom event registry: register, resolve and user write.

Each handler is modelled as running alone. The stop-the-world sections, the
lock and the atomics become plain steps and fields. The calling domain
(`Caml_state->id`), the timestamp (`caml_time_counter`), the pid and what the
user serializer produced are parameters.

Files and modules:

- `event_header.dfy` (`EventHeader`): the 64-bit header word, its fields and
  the padding word `distance << 54`. `runtime/caml/runtime_events.h` is not
  part of this model. The header layout is taken to be:
  - the length (header and timestamp included) in bits 54..63;
  - the category bit in bit 53, clear for runtime records and set for user
    records;
  - the message type in bits 49..52;
  - the id in bits 36..48.

  Two things about this layout are fixed by `runtime_events.c` itself. The
  padding word `distance << 54` leaves ten bits for the length and zero
  everywhere else. The triple (runtime, `EV_INTERNAL`, id 0) is reserved for
  padding, so a header that is zero outside the length must read as runtime:
  the category bit is clear for the runtime category. Enumerations are
  numbered by their declaration order.
- `ring_writer.dfy` (`RingWriter`): the ring as values.
  - Logical head and tail only grow; offset `i % size` is where index `i` lives.
  - The chain of records from head to tail (`Chain`).
  - Eviction (`Evict`), the padding decision and the appended ring.
  - `WriteEffect`: the value-level effect of one `write_to_ring`, and the
    lemmas about it.
- `rings.dfy` (`Rings`): the heap side.
  - `RingBuffer` is a domain's ring header (`head`, `tail`) plus its data
    `array`. Its methods follow `write_to_ring` step by step: padding decision,
    eviction loop, padding store, header and timestamp stores, `memcpy`, and
    the tail store.
  - `Region` is the mapped region: one ring per domain slot and the name table.
- `layout.dfy` (`Layout`): sizes and offsets of the region, and the disjointness
  of the per-domain areas.
- `lifecycle.dfy` (`Lifecycle`): the `enabled`/`paused` flag pair and its
  transitions.
- `alloc_histogram.dfy` (`AllocHistogram`): the bucket index of `caml_ev_alloc`.
- `user_payload.dfy` (`UserPayload`): how a custom event's payload is
  rounded to words and marked, and how its bytes travel as words.
- `registry.dfy` (`Registry`): the register checks, name matching, and the
  list of registered events.
- `runtime_events.dfy` (`RuntimeEvents`): the `Producer` class. This is the
  process-wide state (flags, region, custom event counter and list, histogram)
  and every entry point.
- `options.dfy` (`Options`) and `arith.dfy` (`Arith`): `Option`/`Result`, and
  arithmetic facts about division and modulo.

The ring's central invariant is `RingBuffer.Valid`. From `head`, the records
step along the lengths their headers decode to, each at least one word, and
land exactly on `tail`, with `tail - head` less than the ring size. This
invariant is what makes the eviction loop terminate. Every write keeps it.

## Model

| member | source | states |
|---|---|---|
| EventHeader.ShiftedLength | runtime/runtime_events.c:589-591 | the 64-bit shift `length << 54` keeps exactly the low ten bits of the length, placed at bit 54 |
| EventHeader.HeaderLengthIsShift | runtime/runtime_events.c:606-610 | the length field of a header and the padding word are the 64-bit shift of the length |
| EventHeader.HeaderFields | runtime/runtime_events.c:606-610 | each header field decodes to what was packed: length mod 2^10, category, type code, id |
| EventHeader.PaddingFields | runtime/runtime_events.c:589-593 | a padding word decodes to its distance (mod 2^10) and to the reserved triple: runtime category, type EV_INTERNAL, id 0 |
| EventHeader.HeaderIsPaddingIff | runtime/runtime_events.c:566-568 | a header reads as padding, and equals the padding word of its length, exactly when it carries runtime, EV_INTERNAL and id 0; every padding word reads as padding |
| EventHeader.AssertedBoundOverflowsLengthField | runtime/runtime_events.c:564-565 | an event of 1022 words passes the assertion, yet its header's length field decodes to 0 |
| EventHeader.HeaderLengthExact | runtime/runtime_events.c:532 | below 2^10 the length field of a header and of a padding word is exact |
| Layout.MakeMetadata | runtime/runtime_events.c:343-363 | headers at 64, data after max_domains ring headers, names after max_domains rings, and the name table ends exactly at the total size |
| Layout.AsCInt | runtime/runtime_events.c:95 | an assignment to a C `int` keeps the value modulo 2^32, in -2^31..2^31-1 |
| Layout.TotalSizeOverflowsCInt | runtime/runtime_events.c:263-267 | 128 domains with rings of 2^21 words need 2148542528 bytes, which the `int` holding the total size turns into -2146424768 |
| Layout.DomainAreasInside | runtime/runtime_events.c:518-525 | each domain's ring header lies in the header area and its data in the data area, inside the region |
| Layout.DomainAreasDisjoint | runtime/runtime_events.c:539-541 | distinct domains have disjoint ring headers and disjoint ring data |
| Layout.RingWordAddress | runtime/runtime_events.c:539-541 | word k of domain d's ring is word d*ringWords+k of the data area |
| Layout.CustomSlotInside | runtime/runtime_events.c:686-689 | every name slot below the maximum lies inside the region |
| Layout.SlotAtCapacityIsOutside | runtime/runtime_events.c:263-268 | the slot with index RUNTIME_EVENTS_MAX_CUSTOM_EVENTS starts at the end of the region |
| Lifecycle.Create | runtime/runtime_events.c:244-389 | creation leaves tracing enabled; an enabled state is unchanged, a disabled one becomes active |
| Lifecycle.Teardown | runtime/runtime_events.c:184-186 | teardown disables tracing and leaves paused as it was |
| Lifecycle.Pause | runtime/runtime_events.c:446-454 | pause changes the flags exactly when active, and leaves nothing active |
| Lifecycle.Resume | runtime/runtime_events.c:456-464 | resume changes the flags exactly when enabled and paused, and leaves an enabled ring active |
| Lifecycle.CreateIdempotent | runtime/runtime_events.c:243-244 | creating twice is creating once |
| Lifecycle.ResumeUndoesPause | runtime/runtime_events.c:446-464 | pause then resume restores an active state |
| Lifecycle.DisabledIgnoresPauseResume | runtime/runtime_events.c:447 | while disabled, pause and resume change nothing |
| Lifecycle.TeardownThenCreateIsActive | runtime/runtime_events.c:195-205 | teardown then create always ends active, whatever the pause state |
| AllocHistogram.BucketIndex | runtime/runtime_events.c:660-667 | the chosen bucket index is always below the bucket count |
| AllocHistogram.BucketIndexIsRange | runtime/runtime_events.c:660-667 | the index is that of exactly the bucket whose size range holds sz |
| AllocHistogram.BucketIndexMonotone | runtime/runtime_events.c:660-667 | larger sizes never land in an earlier bucket |
| RingWriter.PaddingRequired | runtime/runtime_events.c:555-573 | padding is the distance to the physical end, shorter than the record, and lands at offset 0, or is 0 and the record fits before the end |
| RingWriter.WriteSpan | runtime/runtime_events.c:576-577 | padding plus record equals the record alone exactly when the record fits before the end |
| RingWriter.StoresMakeAppended | runtime/runtime_events.c:588-616 | the padding, header, timestamp and memcpy stores give the appended ring |
| RingWriter.ChainJoin | runtime/runtime_events.c:576-586 | two record chains that meet form one chain |
| RingWriter.ChainFrame | runtime/runtime_events.c:576-586 | a chain depends only on the words at the offsets it covers |
| RingWriter.EvictSound | runtime/runtime_events.c:576-586 | eviction moves the head forward along the chain up to at most the tail, leaves room for the new words, and moves nothing when they already fit |
| RingWriter.AppendKeepsLive | runtime/runtime_events.c:588-616 | appending within the window leaves the words of every live record untouched |
| RingWriter.RecordSelfDescribing | runtime/runtime_events.c:606-610 | a record's header gives the record's own length |
| RingWriter.AppendChainsNew | runtime/runtime_events.c:588-618 | the padding record (if any) and the new record chain from the old tail to the new one |
| RingWriter.AppendKeepsChain | runtime/runtime_events.c:576-618 | after eviction and append the chain runs from the head to the new tail |
| RingWriter.AppendKeepsRingChain | runtime/runtime_events.c:576-618 | the same, for the record write_to_ring builds |
| RingWriter.WriteKeepsRingValid | runtime/runtime_events.c:527-619 | a write keeps the ring valid: chain from head to tail, fewer than size words apart |
| RingWriter.WriteMovesHeadAndTail | runtime/runtime_events.c:576-586 | the head moves forward to at most the old tail, the tail advances by padding + length + 2, and the head stays put when there is room |
| RingWriter.AppendedHolds | runtime/runtime_events.c:588-616 | the record sits at its start offset and the padding word at the old tail offset |
| RingWriter.AppendedElsewhere | runtime/runtime_events.c:588-616 | every word outside the record and the padding word is unchanged |
| RingWriter.WritePadsToEnd | runtime/runtime_events.c:555-600 | padding happens exactly when the record would straddle the end; then a padding word whose length is the distance to the end sits at the old tail offset and the record starts at 0; the record never crosses the end |
| RingWriter.RecordFields | runtime/runtime_events.c:606-616 | a record's header decodes to length+2, category, type and id, followed by the timestamp and the payload |
| RingWriter.WriteReadsBack | runtime/runtime_events.c:606-616 | a reader at the record's start offset decodes its header, the timestamp and exactly the payload |
| RingWriter.WriteTellsPaddingApart | runtime/runtime_events.c:566-616 | the record header written reads as padding exactly for the reserved triple, so never for a record RingBuffer.Write accepts; the padding word reads as padding of the distance to the end (mod 2^10) |
| RingWriter.WriteKeepsSurvivors | runtime/runtime_events.c:576-616 | words of records not evicted are unchanged |
| RingWriter.FirstWrite | runtime/runtime_events.c:377-391 | the first write into a freshly reset ring evicts nothing, pads nothing and fills the first words |
| Rings.SlotName | runtime/runtime_events.c:691-692 | `strncpy` with 127 keeps a shorter name whole and cuts a longer one to 127 characters |
| Rings.RingBuffer.constructor | runtime/runtime_events.c:377-378 | a freshly reset ring is valid, with head and tail 0 |
| Rings.RingBuffer.Padding | runtime/runtime_events.c:551-573 | returns the padding the record needs |
| Rings.RingBuffer.AdvanceHead | runtime/runtime_events.c:576-586 | the eviction loop ends at the evicted head, keeps the chain and leaves room for the new words |
| Rings.RingBuffer.Copy | runtime/runtime_events.c:613-616 | memcpy replaces exactly the target words |
| Rings.RingBuffer.Store | runtime/runtime_events.c:588-618 | the stores leave the appended ring and the tail past padding and record |
| Rings.RingBuffer.Append | runtime/runtime_events.c:588-618 | the stores keep the ring valid |
| Rings.RingBuffer.Write | runtime/runtime_events.c:527-619 | write_to_ring: new head is the evicted head, new tail is the old tail plus padding and record, the data is the appended ring, and the ring stays valid |
| Rings.Region.constructor | runtime/runtime_events.c:366-379 | every domain's ring starts with head and tail 0 |
| Rings.Region.Write | runtime/runtime_events.c:534-541 | only the calling domain's ring changes, by one write effect |
| UserPayload.PaddingFits | runtime/runtime_events.c:803-806 | the rounded words hold the payload plus at least one byte, the marker lies in 0..7 and never overwrites the payload |
| UserPayload.StoreMarker | runtime/runtime_events.c:804-806 | the buffer becomes Marked: the byte at offset_index holds the spare-byte count and no other byte changes |
| UserPayload.LengthRoundTrip | runtime/runtime_events.c:803-806 | word count and marker determine len_bytes, and vice versa |
| UserPayload.BytesOfLittleEndian | runtime/runtime_events.c:808 | splitting the value of a byte string gives the bytes back |
| UserPayload.LittleEndianBytesOf | runtime/runtime_events.c:808 | the value of a number's bytes is the number |
| UserPayload.WordOf | runtime/runtime_events.c:808 | the word eight bytes make has exactly those bytes |
| UserPayload.UnpackPack | runtime/runtime_events.c:807-809 | the words handed to write_to_ring carry the buffer's bytes unchanged |
| UserPayload.Marked | runtime/runtime_events.c:806 | the marker store keeps the buffer's length |
| UserPayload.CustomPayloadReadsBack | runtime/runtime_events.c:803-809 | a reader of the written words gets the serialized bytes and recovers their number from the last byte |
| Registry.CheckAccepts | runtime/runtime_events.c:701-717 | registration's checks succeed exactly for an in-table index and a name of at most 127 characters without NUL; the first failing check is reported |
| Registry.CheckAsWrittenAdmitsCapacity | runtime/runtime_events.c:703 | the check as written accepts index 8192, whose name slot starts at the end of the region; the corrected check differs only there |
| Registry.SameNameIsEquality | runtime/runtime_events.c:867-868 | for a registered-length name, the `strncmp` test over 128 characters is equality |
| Registry.Find | runtime/runtime_events.c:862-873 | the result is the first event whose name matches, or none when no name matches |
| Registry.RegisterKeepsWellFormed | runtime/runtime_events.c:701-750 | a consumed id or a prepended valid event keeps ids distinct, decreasing and below the counter |
| Registry.WellFormedSlots | runtime/runtime_events.c:744 | every registered event has its own slot in the name table |
| Registry.ReconstructedName | runtime/runtime_events.c:879-881 | `strnlen` keeps at most 128 characters: a name of up to 128 whole, a longer one cut to its first 128 |
| Registry.LongNameNotReconstructed | runtime/runtime_events.c:879-884 | a reconstructed name of 128 characters is rejected by registration |
| RuntimeEvents.AsWordRoundTrip | runtime/runtime_events.c:647-650 | the `int64_t` to `uint64_t` reinterpretation loses nothing |
| RuntimeEvents.Producer.IsActive | runtime/runtime_events.c:466-470 | active exactly when enabled and not paused |
| RuntimeEvents.Producer.constructor | runtime/runtime_events.c:654 | initial state: disabled, no region, no events, zero histogram |
| RuntimeEvents.Producer.EventBegin | runtime/runtime_events.c:623-628 | when active one EV_BEGIN record with the phase as id goes to the caller's ring; otherwise no ring changes |
| RuntimeEvents.Producer.EventEnd | runtime/runtime_events.c:630-635 | when active one EV_EXIT record; otherwise no ring changes |
| RuntimeEvents.Producer.EventCounter | runtime/runtime_events.c:637-645 | when active one EV_COUNTER record carrying the value; otherwise no ring changes |
| RuntimeEvents.Producer.EventLifecycle | runtime/runtime_events.c:647-652 | when active one EV_LIFECYCLE record carrying the data as a word; otherwise no ring changes |
| RuntimeEvents.Producer.Alloc | runtime/runtime_events.c:656-668 | when active exactly the size's bucket grows by one modulo 2^64; otherwise nothing changes |
| RuntimeEvents.Producer.AllocFlush | runtime/runtime_events.c:670-682 | when active one EV_ALLOC record carrying the whole histogram, then all buckets but the first are zero |
| RuntimeEvents.Producer.ClearBuckets | runtime/runtime_events.c:679-681 | zeroes buckets 1..N-1 and keeps bucket 0 |
| RuntimeEvents.Producer.Create | runtime/runtime_events.c:242-402 | nothing when enabled; otherwise a fresh region with the MakeMetadata header, active, the caller's ring holding exactly the EV_RING_START record with the pid, other rings empty, all names in their slots |
| RuntimeEvents.Producer.Open | runtime/runtime_events.c:343-391 | the fresh region with the MakeMetadata header, the flags and the EV_RING_START record of creation |
| RuntimeEvents.Producer.ReplayNames | runtime/runtime_events.c:394-398 | every registered event's name is in its slot of the new region |
| RuntimeEvents.Producer.Teardown | runtime/runtime_events.c:164-187 | the region is gone and tracing disabled; the registry is kept |
| RuntimeEvents.Producer.Destroy | runtime/runtime_events.c:222-237 | when enabled, paused or not, one EV_RING_STOP record goes into the caller's ring, then teardown |
| RuntimeEvents.Producer.PostFork | runtime/runtime_events.c:189-206 | when enabled, a new region with the MakeMetadata header, active, whose caller ring holds only EV_RING_START; otherwise nothing |
| RuntimeEvents.Producer.Pause | runtime/runtime_events.c:446-454 | the flags follow Lifecycle.Pause and no ring changes, even from an active state: the EV_RING_PAUSE marker is never written |
| RuntimeEvents.Producer.PauseWithMarker | runtime/runtime_events.c:446-454 | the flags follow Lifecycle.Pause; from an active state the caller's ring gets exactly an EV_RING_PAUSE record with data 0, else no ring changes |
| RuntimeEvents.Producer.Resume | runtime/runtime_events.c:456-464 | the flags follow Lifecycle.Resume; one EV_RING_RESUME record exactly when the compare-and-swap succeeds |
| RuntimeEvents.Producer.Register | runtime/runtime_events.c:695-755 | the counter always advances; the first failing check is returned with nothing else changed, or the event is prepended and its name put in its slot when the region exists |
| RuntimeEvents.Producer.FindByName | runtime/runtime_events.c:863-873 | the walk returns Registry.Find of the list |
| RuntimeEvents.Producer.Resolve | runtime/runtime_events.c:851-889 | the flags and region never change and a failure leaves the list alone; a found event is returned with nothing changed; an unknown custom name gives none with nothing changed; any other unknown name is registered under its reconstructed name with no tag, its slot name written on success and the table untouched on failure |
| RuntimeEvents.Producer.WriteCustom | runtime/runtime_events.c:803-809 | the buffer gets exactly the length marker and the caller's ring one EV_USER custom record of its first words |
| RuntimeEvents.Producer.WriteCustomWords | runtime/runtime_events.c:807-809 | the caller's ring gets exactly one EV_USER custom record of the given words and the event id |
| RuntimeEvents.Producer.UserWrite | runtime/runtime_events.c:757-844 | inactive or a raised serializer: nothing written; else the Unit, Int, Span begin/end or custom record of the event id; the buffer changes only for a custom event written, and then gets exactly the length marker |

## Left out

- The file and mapping plumbing is out: the path, `open`/`ftruncate`/`mmap`/`munmap`/`unlink` and their Win32 counterparts, and `caml_secure_getenv`. The region is modelled as objects; the file's initial words are arbitrary.
- Concurrency is out: the stop-the-world barrier, the retry loops of `caml_runtime_events_start` and `caml_runtime_events_destroy`, memory ordering, and `user_events_lock`. Each handler runs alone, so `caml_runtime_events_start` is `Create`.
- `caml_time_counter`, `getpid` and `Caml_state->id` are parameters.
- The OCaml value plumbing is out: `CAMLparam`, allocation, GC roots and `Field` access. An event is a datatype; the list is a `seq`.
- The serializer callback of a custom event is out. `Serialized` stands for its outcome: raised, or a byte count with the bytes already in the buffer. It is taken to change no tracing state, so the second `ring_is_active` test after it is not modelled. A raised exception is reported through the returned flag.
- `caml_runtime_events_current_location`, `caml_ml_runtime_events_path` and `caml_runtime_events_are_active` are out: they only read state. The `caml_eventlog_pause`/`caml_eventlog_resume` stubs are out: they always fail.
- The `remove_file`/preserve choice of teardown is out: it only affects the file.
- The header encoding is out: `runtime/caml/runtime_events.h` is not part of this model. Its layout, the enumeration codes, the bucket constants (`NUM_ALLOC_BUCKETS` 20, `SINGLE` 1, `DECADE` 9) and the structure sizes are assumptions stated in the files that use them.
- The 64-bit wrap-around of ring head and tail is out: they are unbounded naturals. The physical offset is `index % size`, equal to the source's mask for a power-of-two size.
- Byte order is out: the reinterpretation of the custom payload bytes as words assumes a little-endian host.
- Rings.RingBuffer.Write: requires a ring of at least twice the record's length. The source demands nothing: with a smaller ring the eviction loop could run the head past the tail. The producer therefore assumes at least 2 * RUNTIME_EVENTS_MAX_MSG_LENGTH words per ring.
- Rings.RingBuffer.Write: requires `event_length + 2 < 1024`. This is tighter than the source's `event_length < 1024` assertion (see Findings).
- RuntimeEvents.Producer.UserWrite: requires the serialized length to leave the marker byte inside the buffer and within the largest record. The source does not check this.
- RuntimeEvents.Producer.UserWrite: requires the event id below 2^13 and an Int content within 64 bits. These hold for events the (corrected) registration hands out.
- RuntimeEvents.Producer.Register uses the corrected index check (see Findings). RuntimeEvents.Producer.Resolve registers through it too: at index 8192 resolving an unknown non-custom name fails in the model, while `caml_runtime_events_user_register` (line 703) accepts it.
- Names are Dafny strings, and each character stands for one byte of the OCaml byte string. The 127 limit of register (lines 710-711) counts bytes with `caml_string_length`; no text encoding is modelled.
- Layout.MakeMetadata: sizes and offsets are unbounded naturals. The source keeps `current_ring_total_size` (line 95), `ring_headers_length` and `ring_data_length` (line 245) and `ring_size_words` (line 106) in C `int`, so the model agrees with it only while the total size is below 2^31 bytes. Layout.TotalSizeOverflowsCInt shows a configuration where it is not; what `ftruncate` and `mmap` then do is file plumbing, which is out.
- RuntimeEvents.Producer.Resolve and FindByName require a name without NUL characters: the name arrives as a C `char*` (line 852), which ends at its first NUL. Under that condition `SameName` is `strncmp(…, 128) == 0`.

## Findings

| source | as written | input that shows it | evidently intended | confidence | as-written member | corrected member |
|---|---|---|---|---|---|---|
| runtime/runtime_events.c:703 | `index > RUNTIME_EVENTS_MAX_CUSTOM_EVENTS` rejects only indices above the maximum | the 8193rd registration, index 8192 and name "e": it passes, and its name is written at offset custom_events_offset + 8192 * 128, the end of the mapped region | `index >= RUNTIME_EVENTS_MAX_CUSTOM_EVENTS`, so every accepted index has a slot in the table | not executed; high | Registry.CheckAsWrittenAdmitsCapacity | Registry.CheckAccepts |
| runtime/runtime_events.c:564-565 | `CAMLassert(event_length < RUNTIME_EVENTS_MAX_MSG_LENGTH)` bounds the payload, not the record | event_length 1022: the record's length 1024 does not fit the ten-bit length field and its header decodes to length 0, so evicting it would not advance the head | `event_length + 2 < RUNTIME_EVENTS_MAX_MSG_LENGTH` | not executed; medium (the bound is a debug assertion, and apart from custom events the callers in this file write at most 20 payload words) | EventHeader.AssertedBoundOverflowsLengthField | RingWriter.RecordSelfDescribing |
| runtime/runtime_events.c:446-454 | `caml_runtime_events_pause` sets `runtime_events_paused` and then calls `caml_ev_lifecycle(EV_RING_PAUSE, 0)`, which writes only while the ring is active | any pause from an active state: the flag is already set when the marker is requested, so no EV_RING_PAUSE record reaches the ring, while resume's EV_RING_RESUME does | the marker is written before the ring stops being active, as for resume | not executed; medium (the order may be deliberate, but then the call is dead code) | RuntimeEvents.Producer.Pause | RuntimeEvents.Producer.PauseWithMarker |
