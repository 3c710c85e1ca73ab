/**
 * The custom (user) event registry: the list `user_events` of every event
 * registered so far, most recent first, and the checks
 * caml_runtime_events_user_register makes before adding to it. An event
 * record is the OCaml record { id; name; typ; tag }.
 */
module Registry {

  import opened Options
  import Layout

  /** Runtime_events.Type.t: Unit, Int, Span or Custom. */
  datatype EventType = UnitEvent | IntEvent | SpanEvent | CustomEvent

  /** An event's tag is an OCaml value opaque to this file; None is Val_none. */
  datatype UserEvent = UserEvent(id: nat, name: string, ty: EventType, tag: Option<nat>)

  /** The three caml_invalid_argument failures of register, in the order they are checked. */
  datatype RegisterError = TooManyEvents | NameTooLong | NullInName

  /** RUNTIME_EVENTS_CUSTOM_EVENT_ID_LENGTH - 1: room for the name and its terminator. */
  const MaxNameLength: nat := Layout.CustomEventIdLength - 1

  /** caml_string_is_c_safe: no NUL character. */
  predicate CSafe(name: string)
  {
    forall i :: 0 <= i < |name| ==> name[i] != '\0'
  }

  /** The checks of register exactly as written, the index bound `index > MAX` included. */
  function CheckAsWritten(index: nat, name: string): Option<RegisterError>
  {
    if index > Layout.MaxCustomEvents then Some(TooManyEvents)
    else if |name| > MaxNameLength then Some(NameTooLong)
    else if !CSafe(name) then Some(NullInName)
    else None
  }

  /** The checks of register with the index bound the name table needs: index < MAX. */
  function Check(index: nat, name: string): Option<RegisterError>
  {
    if index >= Layout.MaxCustomEvents then Some(TooManyEvents)
    else if |name| > MaxNameLength then Some(NameTooLong)
    else if !CSafe(name) then Some(NullInName)
    else None
  }

  /**
   * Register succeeds exactly for an index inside the name table and a name
   * of at most 127 characters without NUL; when several checks fail, the
   * one checked first is reported.
   */
  lemma CheckAccepts(index: nat, name: string)
    ensures Check(index, name) == None <==>
      index < Layout.MaxCustomEvents && |name| <= MaxNameLength && CSafe(name)
    ensures index >= Layout.MaxCustomEvents ==> Check(index, name) == Some(TooManyEvents)
    ensures index < Layout.MaxCustomEvents && |name| > MaxNameLength ==> Check(index, name) == Some(NameTooLong)
  {
  }

  /**
   * The check as written accepts index == MAX with a valid name, yet the
   * name slot of that index starts where the mapped region ends; the
   * corrected check rejects it, and the two agree on every other index.
   */
  lemma CheckAsWrittenAdmitsCapacity(maxDomains: nat, ringWords: nat, index: nat, name: string)
    ensures CheckAsWritten(Layout.MaxCustomEvents, "e") == None
    ensures Check(Layout.MaxCustomEvents, "e") == Some(TooManyEvents)
    ensures var m := Layout.MakeMetadata(maxDomains, ringWords);
      Layout.CustomEventOffset(m, Layout.MaxCustomEvents) == Layout.TotalSize(maxDomains, ringWords)
    ensures index != Layout.MaxCustomEvents ==> Check(index, name) == CheckAsWritten(index, name)
  {
    Layout.SlotAtCapacityIsOutside(maxDomains, ringWords);
  }

  /**
   * `strncmp(a, b, n) == 0` for strings without NUL: either both have at
   * least n characters and those agree, or they are equal.
   */
  predicate SameName(a: string, b: string, n: nat)
  {
    if n <= |a| && n <= |b| then a[..n] == b[..n] else a == b
  }

  /** For a name shorter than the compared length, matching is equality. */
  lemma SameNameIsEquality(a: string, b: string)
    requires |a| < Layout.CustomEventIdLength
    ensures SameName(a, b, Layout.CustomEventIdLength) <==> a == b
  {
  }

  /**
   * The event resolve returns from the list: the first, that is most
   * recently registered, event whose name matches; none when no name does.
   */
  function Find(events: seq<UserEvent>, name: string): (r: Option<UserEvent>)
    ensures r.Some? ==> exists i :: 0 <= i < |events| && events[i] == r.value &&
                          SameName(events[i].name, name, Layout.CustomEventIdLength) &&
                          forall j :: 0 <= j < i ==> !SameName(events[j].name, name, Layout.CustomEventIdLength)
    ensures r.None? <==> forall i :: 0 <= i < |events| ==> !SameName(events[i].name, name, Layout.CustomEventIdLength)
  {
    if |events| == 0 then None
    else if SameName(events[0].name, name, Layout.CustomEventIdLength) then Some(events[0])
    else
      var r := Find(events[1..], name);
      assert forall i :: 1 <= i < |events| ==> events[i] == events[1..][i - 1];
      r
  }

  /**
   * The list as register builds it: ids strictly decrease from the front,
   * all below the next id the counter hands out, and every entry passed the
   * checks.
   */
  ghost predicate WellFormed(events: seq<UserEvent>, nextId: nat)
  {
    && (forall i :: 0 <= i < |events| ==> events[i].id < nextId && Check(events[i].id, events[i].name) == None)
    && (forall i, j :: 0 <= i < j < |events| ==> events[i].id > events[j].id)
  }

  /**
   * Prepending an event that passed the checks and carries the current
   * counter keeps the list well formed for the incremented counter; a failed
   * registration that only consumed the id keeps it well formed too.
   */
  lemma {:induction false} RegisterKeepsWellFormed(events: seq<UserEvent>, nextId: nat, e: UserEvent)
    requires WellFormed(events, nextId)
    ensures WellFormed(events, nextId + 1)
    ensures e.id == nextId && Check(e.id, e.name) == None ==> WellFormed([e] + events, nextId + 1)
  {
    if e.id == nextId && Check(e.id, e.name) == None {
      var es := [e] + events;
      forall i, j | 0 <= i < j < |es|
        ensures es[i].id > es[j].id
      {
        if i > 0 {
          assert es[i] == events[i - 1] && es[j] == events[j - 1];
        }
      }
    }
  }

  /** In a well-formed list every event has its own name slot. */
  lemma WellFormedSlots(events: seq<UserEvent>, nextId: nat, i: nat, j: nat)
    requires WellFormed(events, nextId) && i < |events| && j < |events|
    ensures events[i].id < Layout.MaxCustomEvents
    ensures i != j ==> events[i].id != events[j].id
  {
    CheckAccepts(events[i].id, events[i].name);
  }

  /** `strnlen(event_name, ID_LENGTH)` characters of the name: the name of a reconstructed event. */
  function ReconstructedName(name: string): (r: string)
    ensures |r| <= Layout.CustomEventIdLength
    ensures |name| <= Layout.CustomEventIdLength ==> r == name
    ensures |name| > Layout.CustomEventIdLength ==> r == name[..Layout.CustomEventIdLength]
  {
    if |name| <= Layout.CustomEventIdLength then name else name[..Layout.CustomEventIdLength]
  }

  /**
   * A name of 128 characters or more is cut to 128, which register rejects:
   * resolving such an unknown name fails.
   */
  lemma LongNameNotReconstructed(index: nat, name: string)
    requires |name| >= Layout.CustomEventIdLength
    ensures Check(index, ReconstructedName(name)).Some?
  {
  }
}
