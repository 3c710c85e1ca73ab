/**
 * The producer's process-wide state and its entry points: the enabled and
 * paused flags, the mapped region (current_metadata, null while disabled),
 * the custom event counter and list, and the allocation histogram; the
 * lifecycle operations, the caml_ev_* encoders and the user event API.
 *
 * Every handler runs alone: the stop-the-world sections, the lock and the
 * atomics become plain steps and fields. The domain that calls an encoder
 * (Caml_state->id) and the timestamp (caml_time_counter) are parameters.
 */
module RuntimeEvents {

  import opened Options
  import opened EventHeader
  import opened RingWriter
  import opened Registry
  import opened UserPayload
  import Lifecycle
  import AllocHistogram
  import Layout
  import Rings

  /** ev_lifecycle, in the header's enumeration order. */
  datatype LifecycleKind =
    RingStart | RingStop | RingPause | RingResume | ForkParent | ForkChild | DomainSpawn | DomainTerminate
  {
    /** The enumerator's ordinal: the event id of the lifecycle record. */
    function Code(): (c: nat)
      ensures c < IdLimit
    {
      match this
      case RingStart => 0 case RingStop => 1 case RingPause => 2 case RingResume => 3
      case ForkParent => 4 case ForkChild => 5 case DomainSpawn => 6 case DomainTerminate => 7
    }
  }

  const Int64Limit: int := 0x8000_0000_0000_0000

  predicate IsInt64(x: int)
  {
    -Int64Limit <= x < Int64Limit
  }

  /** The cast of a signed 64-bit value to uint64_t: two's complement. */
  function AsWord(x: int): Word
    requires IsInt64(x)
  {
    if x >= 0 then x else x + WordLimit
  }

  /** The signed 64-bit value whose two's complement is w. */
  function Signed(w: Word): int
  {
    if w < Int64Limit then w else w - WordLimit
  }

  /** The cast loses nothing: it and its inverse undo each other. */
  lemma AsWordRoundTrip(x: int, w: Word)
    requires IsInt64(x)
    ensures Signed(AsWord(x)) == x
    ensures IsInt64(Signed(w)) && AsWord(Signed(w)) == w
  {
  }

  /** What the serializer of a custom event did: raised, or wrote len_bytes bytes into the buffer. */
  datatype Serialized = Raised | Wrote(lenBytes: nat)

  class Producer {
    /** caml_params->max_domains and ring_size_words. */
    const maxDomains: nat
    const ringWords: nat

    /** runtime_events_enabled and runtime_events_paused. */
    var enabled: bool
    var paused: bool

    /** current_metadata: the mapped region, null while disabled. */
    var region: Rings.Region?

    /** runtime_custom_event_index and user_events. */
    var customIndex: nat
    var userEvents: seq<UserEvent>

    /** alloc_buckets. */
    const allocBuckets: array<Word>

    ghost function Flags(): Lifecycle.Flags
      reads this
    {
      Lifecycle.Flags(enabled, paused)
    }

    /** ring_is_active. */
    function IsActive(): (b: bool)
      reads this
      ensures b == Lifecycle.IsActive(Flags())
    {
      enabled && !paused
    }

    /** The ring objects of the region. */
    ghost function RingObjects(): set<object>
      reads this
    {
      if region == null then {} else region.Repr()
    }

    /** The ring objects one write of the given domain touches. */
    ghost function RingFrame(domain: nat): set<object>
      reads this
    {
      if region != null && domain < |region.rings| then {region.rings[domain], region.rings[domain].data} else {}
    }

    /**
     * The flags agree with the region, which exists exactly while enabled,
     * has the configured shape, valid rings and the metadata header written
     * when it was created; the histogram is separate.
     * Rings of fewer than 2 * RUNTIME_EVENTS_MAX_MSG_LENGTH words are
     * excluded: for them the eviction loop could run past the tail.
     */
    ghost predicate Ready()
      reads this, RingObjects()
    {
      && allocBuckets.Length == AllocHistogram.NumBuckets
      && 2 * MaxMsgLength <= ringWords
      && (enabled <==> region != null)
      && (region != null ==>
            && region.Valid() && region.maxDomains == maxDomains && region.ringWords == ringWords
            && region.meta == Layout.MakeMetadata(maxDomains, ringWords)
            && allocBuckets !in region.Repr())
    }

    /**
     * The registry is well formed and, while the region exists, the name slot
     * of every registered event holds its name.
     */
    ghost predicate Registered()
      reads this, if region == null then {} else {region.names}
    {
      && WellFormed(userEvents, customIndex)
      && (region != null ==>
            forall i :: 0 <= i < |userEvents| ==>
              userEvents[i].id < region.names.Length && region.names[userEvents[i].id] == Rings.SlotName(userEvents[i].name))
    }

    ghost predicate Valid()
      reads this, RingObjects(), if region == null then {} else {region.names}
    {
      Ready() && Registered()
    }

    /**
     * The static initial state that caml_runtime_events_init starts from:
     * disabled, no region, no custom events, an empty histogram.
     */
    constructor (maxDomains: nat, ringWords: nat)
      requires 2 * MaxMsgLength <= ringWords
      ensures Valid() && this.maxDomains == maxDomains && this.ringWords == ringWords
      ensures !enabled && !paused && region == null && customIndex == 0 && userEvents == []
      ensures forall i :: 0 <= i < allocBuckets.Length ==> allocBuckets[i] == 0
    {
      this.maxDomains := maxDomains;
      this.ringWords := ringWords;
      enabled, paused := false, false;
      region := null;
      customIndex, userEvents := 0, [];
      allocBuckets := new Word[AllocHistogram.NumBuckets](_ => 0);
    }

    // The caml_ev_* encoders.

    /** caml_ev_begin: an EV_BEGIN record with the phase as id and no payload, when active. */
    method EventBegin(domain: nat, phase: nat, timestamp: Word)
      requires Ready() && domain < maxDomains && phase < IdLimit
      modifies RingFrame(domain)
      ensures Ready()
      ensures IsActive() ==> region.Wrote(domain, Runtime(RuntimeType.Begin), phase, [], timestamp)
      ensures !IsActive() ==> (region != null ==> region.Same())
    {
      if IsActive() {
        var buf: seq<Word> := [];
        assert buf[0..0] == buf;
        region.Write(domain, Runtime(RuntimeType.Begin), phase, 0, buf, 0, timestamp);
      }
    }

    /** caml_ev_end: an EV_EXIT record with the phase as id and no payload, when active. */
    method EventEnd(domain: nat, phase: nat, timestamp: Word)
      requires Ready() && domain < maxDomains && phase < IdLimit
      modifies RingFrame(domain)
      ensures Ready()
      ensures IsActive() ==> region.Wrote(domain, Runtime(RuntimeType.Exit), phase, [], timestamp)
      ensures !IsActive() ==> (region != null ==> region.Same())
    {
      if IsActive() {
        var buf: seq<Word> := [];
        assert buf[0..0] == buf;
        region.Write(domain, Runtime(RuntimeType.Exit), phase, 0, buf, 0, timestamp);
      }
    }

    /** caml_ev_counter: an EV_COUNTER record with the counter as id and its value as payload, when active. */
    method EventCounter(domain: nat, counter: nat, value: Word, timestamp: Word)
      requires Ready() && domain < maxDomains && counter < IdLimit
      modifies RingFrame(domain)
      ensures Ready()
      ensures IsActive() ==> region.Wrote(domain, Runtime(RuntimeType.Counter), counter, [value], timestamp)
      ensures !IsActive() ==> (region != null ==> region.Same())
    {
      if IsActive() {
        var buf := [value];
        assert buf[0..1] == buf;
        region.Write(domain, Runtime(RuntimeType.Counter), counter, 1, buf, 0, timestamp);
      }
    }

    /** caml_ev_lifecycle: an EV_LIFECYCLE record with the kind as id and the int64 data as payload, when active. */
    method EventLifecycle(domain: nat, kind: LifecycleKind, data: int, timestamp: Word)
      requires Ready() && domain < maxDomains && IsInt64(data)
      modifies RingFrame(domain)
      ensures Ready()
      ensures IsActive() ==> region.Wrote(domain, Runtime(RuntimeType.Lifecycle), kind.Code(), [AsWord(data)], timestamp)
      ensures !IsActive() ==> (region != null ==> region.Same())
    {
      if IsActive() {
        var buf := [AsWord(data)];
        assert buf[0..1] == buf;
        region.Write(domain, Runtime(RuntimeType.Lifecycle), kind.Code(), 1, buf, 0, timestamp);
      }
    }

    /**
     * caml_ev_alloc: when active, the bucket of sz counts one more
     * allocation (a uint64_t increment, wrapping at 2^64); nothing else changes.
     */
    method Alloc(sz: Word)
      requires Ready()
      modifies allocBuckets
      ensures var i := AllocHistogram.BucketIndex(sz);
        allocBuckets[..] == if IsActive() then old(allocBuckets[..])[i := (old(allocBuckets[i]) + 1) % WordLimit]
                            else old(allocBuckets[..])
    {
      if !IsActive() {
        return;
      }
      var i;
      if sz < 10 * AllocHistogram.Single {
        i := sz;
      } else if sz - 10 * AllocHistogram.Single < 10 * AllocHistogram.Decade {
        i := sz / 10 + 9 * AllocHistogram.Single;
      } else {
        i := AllocHistogram.NumBuckets - 1;
      }
      assert i == AllocHistogram.BucketIndex(sz);
      allocBuckets[i] := (allocBuckets[i] + 1) % WordLimit;
    }

    /**
     * caml_ev_alloc_flush: when active, an EV_ALLOC record carrying the
     * whole histogram, then every bucket but the first is cleared.
     */
    method AllocFlush(domain: nat, timestamp: Word)
      requires Ready() && domain < maxDomains
      modifies RingFrame(domain), allocBuckets
      ensures Ready()
      ensures IsActive() ==> region.Wrote(domain, Runtime(RuntimeType.Alloc), 0, old(allocBuckets[..]), timestamp)
      ensures IsActive() ==> allocBuckets[0] == old(allocBuckets[0]) &&
                               forall i :: 1 <= i < allocBuckets.Length ==> allocBuckets[i] == 0
      ensures !IsActive() ==> (region != null ==> region.Same()) && allocBuckets[..] == old(allocBuckets[..])
    {
      if !IsActive() {
        return;
      }
      var buf := allocBuckets[..];
      assert buf[0..AllocHistogram.NumBuckets] == buf;
      region.Write(domain, Runtime(RuntimeType.Alloc), 0, AllocHistogram.NumBuckets, buf, 0, timestamp);
      ClearBuckets();
    }

    /** The loop of caml_ev_alloc_flush that zeroes every bucket but the first. */
    method ClearBuckets()
      requires allocBuckets.Length == AllocHistogram.NumBuckets
      modifies allocBuckets
      ensures allocBuckets[0] == old(allocBuckets[0])
      ensures forall i :: 1 <= i < allocBuckets.Length ==> allocBuckets[i] == 0
    {
      for i := 1 to AllocHistogram.NumBuckets
        invariant allocBuckets[0] == old(allocBuckets[0])
        invariant forall j :: 1 <= j < i ==> allocBuckets[j] == 0
      {
        allocBuckets[i] := 0;
      }
    }

    // Lifecycle.

    /**
     * runtime_events_create_from_stw_single with the calling domain and the
     * pid as parameters. When disabled: a fresh region whose rings all start
     * with head and tail 0, enabled and not paused, an EV_RING_START record
     * with the pid in the caller's ring, then every registered name written
     * into its slot. When enabled: nothing.
     */
    method Create(domain: nat, pid: int, timestamp: Word)
      requires Valid() && domain < maxDomains && IsInt64(pid)
      modifies this
      ensures Valid()
      ensures Flags() == Lifecycle.Create(old(Flags()))
      ensures old(enabled) ==> unchanged(this)
      ensures userEvents == old(userEvents) && customIndex == old(customIndex)
      ensures !old(enabled) ==> fresh(region) && fresh(RingObjects()) && fresh(region.names)
      ensures !old(enabled) ==>
        region.Started(domain, Record(Runtime(RuntimeType.Lifecycle), RingStart.Code(), timestamp, [AsWord(pid)]))
    {
      if enabled {
        return;
      }
      Open(domain, pid, timestamp);
      ReplayNames();
    }

    /**
     * The mapping and first record of runtime_events_create_from_stw_single:
     * a fresh region with every ring empty, tracing enabled and not paused,
     * then an EV_RING_START record with the pid in the caller's ring.
     */
    method Open(domain: nat, pid: int, timestamp: Word)
      requires Ready() && !enabled && domain < maxDomains && IsInt64(pid)
      modifies this
      ensures Ready() && enabled && !paused && fresh(region) && fresh(RingObjects()) && fresh(region.names)
      ensures userEvents == old(userEvents) && customIndex == old(customIndex)
      ensures region.Started(domain, Record(Runtime(RuntimeType.Lifecycle), RingStart.Code(), timestamp, [AsWord(pid)]))
    {
      var r := new Rings.Region(maxDomains, ringWords);
      region := r;
      enabled := true;
      paused := false;
      ghost var words := r.rings[domain].data[..];
      assert r.rings[domain] in r.Repr() && r.rings[domain].data in r.Repr();
      EventLifecycle(domain, RingStart, pid, timestamp);
      FirstWrite(words, ringWords, Runtime(RuntimeType.Lifecycle), RingStart.Code(), timestamp, [AsWord(pid)]);
      assert r.Started(domain, Record(Runtime(RuntimeType.Lifecycle), RingStart.Code(), timestamp, [AsWord(pid)]));
    }

    /**
     * The loop at the end of runtime_events_create_from_stw_single: the name
     * of every event in user_events goes into its slot of the new region.
     */
    method ReplayNames()
      requires Ready() && region != null && WellFormed(userEvents, customIndex)
      modifies region.names
      ensures Valid()
    {
      var i := 0;
      while i < |userEvents|
        invariant 0 <= i <= |userEvents|
        invariant forall j :: 0 <= j < i ==> region.names[userEvents[j].id] == Rings.SlotName(userEvents[j].name)
      {
        var event := userEvents[i];
        WellFormedSlots(userEvents, customIndex, i, i);
        region.names[event.id] := Rings.SlotName(event.name);
        forall j | 0 <= j < i
          ensures region.names[userEvents[j].id] == Rings.SlotName(userEvents[j].name)
        {
          WellFormedSlots(userEvents, customIndex, i, j);
        }
        i := i + 1;
      }
      forall i | 0 <= i < |userEvents|
        ensures userEvents[i].id < region.names.Length
      {
        WellFormedSlots(userEvents, customIndex, i, i);
      }
    }

    /** runtime_events_teardown_from_stw_single: the region is unmapped and tracing disabled. */
    method Teardown()
      requires Valid()
      modifies this
      ensures Valid() && region == null
      ensures Flags() == Lifecycle.Teardown(old(Flags()))
      ensures userEvents == old(userEvents) && customIndex == old(customIndex)
    {
      region := null;
      enabled := false;
    }

    /**
     * caml_runtime_events_destroy: when enabled, an EV_RING_STOP record (with
     * no payload, and paused or not) goes into the caller's ring, then the
     * region is torn down.
     */
    method Destroy(domain: nat, timestamp: Word)
      requires Valid() && domain < maxDomains
      modifies this, RingFrame(domain)
      ensures Valid() && region == null
      ensures Flags() == Lifecycle.Teardown(old(Flags()))
      ensures userEvents == old(userEvents) && customIndex == old(customIndex)
      ensures var r := old(region);
        r != null ==>
          r.rings[domain].State() ==
          WriteEffect(old(r.rings[domain].State()), ringWords, Runtime(RuntimeType.Lifecycle), RingStop.Code(), timestamp, [])
    {
      if enabled {
        var buf: seq<Word> := [];
        assert buf[0..0] == buf;
        region.Write(domain, Runtime(RuntimeType.Lifecycle), RingStop.Code(), 0, buf, 0, timestamp);
        Teardown();
      }
    }

    /**
     * caml_runtime_events_post_fork in the child: when enabled, the parent's
     * region is dropped and a fresh one created, so tracing is active again
     * whatever the parent's pause state.
     */
    method PostFork(domain: nat, pid: int, timestamp: Word)
      requires Valid() && domain < maxDomains && IsInt64(pid)
      modifies this
      ensures Valid()
      ensures !old(enabled) ==> unchanged(this)
      ensures old(enabled) ==> IsActive() && fresh(region) && fresh(RingObjects())
      ensures old(enabled) ==>
        region.Started(domain, Record(Runtime(RuntimeType.Lifecycle), RingStart.Code(), timestamp, [AsWord(pid)]))
      ensures userEvents == old(userEvents) && customIndex == old(customIndex)
    {
      if enabled {
        Teardown();
        Create(domain, pid, timestamp);
        Lifecycle.TeardownThenCreateIsActive(old(Flags()));
      }
    }

    /**
     * caml_runtime_events_pause: enabled and not paused becomes paused. The
     * EV_RING_PAUSE record it then asks for is never written, because the
     * ring is no longer active by then.
     */
    method Pause(domain: nat, timestamp: Word)
      requires Valid() && domain < maxDomains
      modifies this, RingFrame(domain)
      ensures Valid() && region == old(region)
      ensures Flags() == Lifecycle.Pause(old(Flags()))
      ensures userEvents == old(userEvents) && customIndex == old(customIndex)
      ensures (region != null ==> region.Same())
    {
      if !enabled {
        return;
      }
      if !paused {
        paused := true;
        EventLifecycle(domain, RingPause, 0, timestamp);
      }
    }

    /**
     * caml_runtime_events_pause as evidently intended, with the marker that
     * announces the transition written while the ring is still active:
     * enabled and not paused writes an EV_RING_PAUSE record with data 0 and
     * then becomes paused; otherwise nothing.
     */
    method PauseWithMarker(domain: nat, timestamp: Word)
      requires Valid() && domain < maxDomains
      modifies this, RingFrame(domain)
      ensures Valid() && region == old(region)
      ensures Flags() == Lifecycle.Pause(old(Flags()))
      ensures userEvents == old(userEvents) && customIndex == old(customIndex)
      ensures old(IsActive()) ==>
        region.Wrote(domain, Runtime(RuntimeType.Lifecycle), RingPause.Code(), [AsWord(0)], timestamp)
      ensures !old(IsActive()) ==> (region != null ==> region.Same())
    {
      if !enabled {
        return;
      }
      if !paused {
        EventLifecycle(domain, RingPause, 0, timestamp);
        paused := true;
      }
    }

    /**
     * caml_runtime_events_resume: enabled and paused becomes active and
     * writes an EV_RING_RESUME record with data 0; otherwise nothing.
     */
    method Resume(domain: nat, timestamp: Word)
      requires Valid() && domain < maxDomains
      modifies this, RingFrame(domain)
      ensures Valid() && region == old(region)
      ensures Flags() == Lifecycle.Resume(old(Flags()))
      ensures userEvents == old(userEvents) && customIndex == old(customIndex)
      ensures old(enabled && paused) ==>
        region.Wrote(domain, Runtime(RuntimeType.Lifecycle), RingResume.Code(), [AsWord(0)], timestamp)
      ensures !old(enabled && paused) ==> (region != null ==> region.Same())
    {
      if !enabled {
        return;
      }
      if paused {
        paused := false;
        EventLifecycle(domain, RingResume, 0, timestamp);
      }
    }

    // Custom events.

    /**
     * caml_runtime_events_user_register, with an index bound that keeps the
     * name slot inside the table: the counter always advances; the event
     * is rejected as Check says, or else prepended to the list and, when
     * the region exists, its name written into its slot.
     */
    method Register(name: string, tag: Option<nat>, ty: EventType) returns (r: Result<UserEvent, RegisterError>)
      requires Valid()
      modifies this, if region == null then {} else {region.names}
      ensures Valid()
      ensures enabled == old(enabled) && paused == old(paused) && region == old(region)
      ensures customIndex == old(customIndex) + 1
      ensures Check(old(customIndex), name).Some? ==>
        r == Failure(Check(old(customIndex), name).value) && userEvents == old(userEvents) &&
        (region != null ==> region.names[..] == old(region.names[..]))
      ensures Check(old(customIndex), name).None? ==>
        r == Success(UserEvent(old(customIndex), name, ty, tag)) && userEvents == [r.value] + old(userEvents) &&
        (region != null ==> region.names[..] == old(region.names[..])[old(customIndex) := Rings.SlotName(name)])
    {
      var index := customIndex;
      customIndex := customIndex + 1;
      RegisterKeepsWellFormed(userEvents, index, UserEvent(index, name, ty, tag));
      if index >= Layout.MaxCustomEvents {
        return Failure(TooManyEvents);
      }
      if |name| > MaxNameLength {
        return Failure(NameTooLong);
      }
      if !CSafe(name) {
        return Failure(NullInName);
      }
      var event := UserEvent(index, name, ty, tag);
      if enabled {
        region.names[index] := Rings.SlotName(name);
      }
      userEvents := [event] + userEvents;
      r := Success(event);
      if region != null {
        forall i | 0 <= i < |userEvents|
          ensures region.names[userEvents[i].id] == Rings.SlotName(userEvents[i].name)
        {
          if i > 0 {
            assert userEvents[i] == old(userEvents)[i - 1];
          }
        }
      }
    }

    /** The loop of caml_runtime_events_user_resolve that walks user_events for a matching name. */
    method FindByName(name: string) returns (r: Option<UserEvent>)
      requires CSafe(name)
      ensures r == Find(userEvents, name)
    {
      var current := userEvents;
      while |current| > 0
        invariant Find(current, name) == Find(userEvents, name)
      {
        if SameName(current[0].name, name, Layout.CustomEventIdLength) {
          return Some(current[0]);
        }
        current := current[1..];
      }
      return None;
    }

    /**
     * caml_runtime_events_user_resolve: the first event of that name; else,
     * for a non-custom type, the result of registering the name (cut to 128
     * characters) with no tag; else none.
     */
    method Resolve(name: string, ty: EventType) returns (r: Result<Option<UserEvent>, RegisterError>)
      requires Valid() && CSafe(name)
      modifies this, if region == null then {} else {region.names}
      ensures Valid()
      ensures enabled == old(enabled) && paused == old(paused) && region == old(region)
      ensures r.Failure? ==> userEvents == old(userEvents)
      ensures Find(old(userEvents), name).Some? ==>
        r == Success(Find(old(userEvents), name)) && unchanged(this) &&
        (region != null ==> unchanged(region.names))
      ensures Find(old(userEvents), name).None? && ty == CustomEvent ==>
        r == Success(None) && unchanged(this) && (region != null ==> unchanged(region.names))
      ensures Find(old(userEvents), name).None? && ty != CustomEvent ==>
        var n := ReconstructedName(name);
        && customIndex == old(customIndex) + 1
        && (Check(old(customIndex), n).Some? ==>
              r == Failure(Check(old(customIndex), n).value) &&
              (region != null ==> region.names[..] == old(region.names[..])))
        && (Check(old(customIndex), n).None? ==>
              r == Success(Some(UserEvent(old(customIndex), n, ty, None))) &&
              userEvents == [r.value.value] + old(userEvents) &&
              (region != null ==> region.names[..] == old(region.names[..])[old(customIndex) := Rings.SlotName(n)]))
    {
      var found := FindByName(name);
      if found.Some? {
        return Success(found);
      }
      if ty == CustomEvent {
        return Success(None);
      }
      var registered := Register(ReconstructedName(name), None, ty);
      match registered
      case Success(event) => r := Success(Some(event));
      case Failure(error) => r := Failure(error);
    }

    /**
     * The custom-event path of caml_runtime_events_user_write once the
     * serializer has left len_bytes bytes: the length marker goes into the
     * last byte of the last word, then those words are written.
     */
    method WriteCustom(domain: nat, eventId: nat, buffer: array<Byte>, lenBytes: nat, timestamp: Word)
      requires Ready() && IsActive() && domain < maxDomains && eventId < IdLimit
      requires PadIndex(lenBytes) < buffer.Length && WordLength(lenBytes) + 2 < MaxMsgLength
      requires buffer !in RingObjects()
      modifies RingFrame(domain), buffer
      ensures Ready()
      ensures buffer[..] == Marked(old(buffer[..]), lenBytes)
      ensures region.Wrote(domain, User(CustomMsg), eventId, Pack(buffer[..], WordLength(lenBytes)), timestamp)
    {
      PaddingFits(lenBytes);
      StoreMarker(buffer, lenBytes);
      WriteCustomWords(domain, eventId, Pack(buffer[..], WordLength(lenBytes)), timestamp);
    }

    /** The write_to_ring call of a custom event: one EV_USER custom record of the given words. */
    method WriteCustomWords(domain: nat, eventId: nat, words: seq<Word>, timestamp: Word)
      requires Ready() && IsActive() && domain < maxDomains && eventId < IdLimit && |words| + 2 < MaxMsgLength
      modifies RingFrame(domain)
      ensures Ready()
      ensures region.Wrote(domain, User(CustomMsg), eventId, words, timestamp)
    {
      assert words[0..|words|] == words;
      region.Write(domain, User(CustomMsg), eventId, |words|, words, 0, timestamp);
    }

    /**
     * caml_runtime_events_user_write, when active: a Unit event writes no
     * payload, an Int event its value, a Span event a begin (content 0) or
     * end record; a Custom event whose serializer raised writes nothing and
     * reports it, otherwise the buffer gets the length marker and its first
     * words are written. The buffer holds what the serializer left in it.
     */
    method UserWrite(domain: nat, event: UserEvent, content: int, buffer: array<Byte>, outcome: Serialized,
                     timestamp: Word) returns (raised: bool)
      requires Ready() && domain < maxDomains && event.id < IdLimit
      requires event.ty == IntEvent ==> IsInt64(content)
      requires event.ty == CustomEvent && outcome.Wrote? ==>
        PadIndex(outcome.lenBytes) < buffer.Length && WordLength(outcome.lenBytes) + 2 < MaxMsgLength
      requires buffer !in RingObjects()
      modifies RingFrame(domain), buffer
      ensures Ready()
      ensures raised <==> IsActive() && event.ty == CustomEvent && outcome.Raised?
      ensures !IsActive() || (event.ty == CustomEvent && outcome.Raised?) ==>
        (region != null ==> region.Same()) && buffer[..] == old(buffer[..])
      ensures event.ty != CustomEvent ==> buffer[..] == old(buffer[..])
      ensures IsActive() && event.ty == UnitEvent ==> region.Wrote(domain, User(UnitMsg), event.id, [], timestamp)
      ensures IsActive() && event.ty == IntEvent ==> region.Wrote(domain, User(IntMsg), event.id, [AsWord(content)], timestamp)
      ensures IsActive() && event.ty == SpanEvent ==>
        region.Wrote(domain, User(if content == 0 then SpanBegin else SpanEnd), event.id, [], timestamp)
      ensures IsActive() && event.ty == CustomEvent && outcome.Wrote? ==>
        && buffer[..] == Marked(old(buffer[..]), outcome.lenBytes)
        && region.Wrote(domain, User(CustomMsg), event.id, Pack(buffer[..], WordLength(outcome.lenBytes)), timestamp)
    {
      if !IsActive() {
        return false;
      }
      match event.ty
      case CustomEvent =>
        if outcome.Raised? {
          return true;
        }
        WriteCustom(domain, event.id, buffer, outcome.lenBytes, timestamp);
        return false;
      case UnitEvent =>
        var buf: seq<Word> := [];
        assert buf[0..0] == buf;
        region.Write(domain, User(UnitMsg), event.id, 0, buf, 0, timestamp);
        return false;
      case IntEvent =>
        var buf := [AsWord(content)];
        assert buf[0..1] == buf;
        region.Write(domain, User(IntMsg), event.id, 1, buf, 0, timestamp);
        return false;
      case SpanEvent =>
        var messageType := if content == 0 then SpanBegin else SpanEnd;
        var buf: seq<Word> := [];
        assert buf[0..0] == buf;
        region.Write(domain, User(messageType), event.id, 0, buf, 0, timestamp);
        return false;
    }
  }
}
