/**
 * The process-wide pair of flags `runtime_events_enabled` and
 * `runtime_events_paused`, and the transitions the producer makes on them.
 * Each transition runs alone: the stop-the-world barrier of create and
 * teardown, and the compare-and-swap of pause and resume, become plain steps.
 */
module Lifecycle {

  datatype Flags = Flags(enabled: bool, paused: bool)

  /** ring_is_active: events are written only when enabled and not paused. */
  predicate IsActive(s: Flags)
  {
    s.enabled && !s.paused
  }

  /**
   * runtime_events_create_from_stw_single: nothing happens when rings already
   * exist; otherwise tracing ends up enabled and not paused.
   */
  function Create(s: Flags): (r: Flags)
    ensures r.enabled
    ensures s.enabled ==> r == s
    ensures !s.enabled ==> IsActive(r)
  {
    if s.enabled then s else Flags(true, false)
  }

  /** runtime_events_teardown_from_stw_single clears `enabled` only. */
  function Teardown(s: Flags): (r: Flags)
    ensures !r.enabled && r.paused == s.paused
  {
    s.(enabled := false)
  }

  /**
   * caml_runtime_events_pause: the compare-and-swap from 0 to 1 succeeds
   * exactly when enabled and not paused; afterwards nothing is active.
   */
  function Pause(s: Flags): (r: Flags)
    ensures r.enabled == s.enabled && !IsActive(r)
    ensures r != s <==> IsActive(s)
  {
    if !s.enabled then s else if !s.paused then s.(paused := true) else s
  }

  /**
   * caml_runtime_events_resume: the compare-and-swap from 1 to 0 succeeds
   * exactly when enabled and paused; afterwards an enabled ring is active.
   */
  function Resume(s: Flags): (r: Flags)
    ensures r.enabled == s.enabled
    ensures r != s <==> s.enabled && s.paused
    ensures s.enabled ==> IsActive(r)
  {
    if !s.enabled then s else if s.paused then s.(paused := false) else s
  }

  /** `start(); start();` is `start();`. */
  lemma CreateIdempotent(s: Flags)
    ensures Create(Create(s)) == Create(s)
  {
  }

  /** Pausing then resuming an active ring restores it. */
  lemma ResumeUndoesPause(s: Flags)
    requires IsActive(s)
    ensures Resume(Pause(s)) == s
  {
  }

  /** After teardown, pause and resume leave the flags alone. */
  lemma DisabledIgnoresPauseResume(s: Flags)
    requires !s.enabled
    ensures Pause(s) == s && Resume(s) == s && !IsActive(s)
  {
  }

  /** Stop followed by start always gives an active ring. */
  lemma TeardownThenCreateIsActive(s: Flags)
    ensures IsActive(Create(Teardown(s)))
  {
  }
}
