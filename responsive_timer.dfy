/** The `ResponsiveTimer` engine: a countdown or a clock readout refreshed once
    per animation frame. The React refs become fields of `Timer`; the frame
    scheduler is the `pending` registration; the monotonic clock reading, the
    wall-clock reading and whether the display element is attached are given
    to each `Tick`. */
module ResponsiveTimer {
  import opened Options
  import opened TimeFormat

  /** An identifier returned by `requestAnimationFrame`. */
  type Handle = nat

  /** What an observer of the timer sees: a write to the display, or a call of `onComplete`. */
  datatype Event = Rendered(text: string) | Completed

  /** JavaScript truthiness of a `number | undefined` that is never NaN:
      both `undefined` and `0` are falsy. */
  predicate Truthy(n: Option<nat>) {
    n.Some? && n.value != 0
  }

  /** `durationMs || 0`: the duration when it is truthy, 0 when it is not. */
  function OrZero(n: Option<nat>): nat {
    if Truthy(n) then n.value else 0
  }

  /** `Math.max(0, durationMs - elapsed)`: what is left of the countdown. */
  function Remaining(durationMs: nat, elapsed: int): (r: nat)
    ensures elapsed >= 0 ==> r <= durationMs
    ensures r == 0 <==> elapsed >= durationMs
    ensures r > 0 ==> r + elapsed == durationMs
  {
    if durationMs - elapsed > 0 then durationMs - elapsed else 0
  }

  /** More time elapsed never leaves more time remaining. */
  lemma RemainingAntitone(durationMs: nat, e1: int, e2: int)
    requires e1 <= e2
    ensures Remaining(durationMs, e2) <= Remaining(durationMs, e1)
  {
  }

  ghost predicate NonIncreasing(s: seq<nat>) {
    forall i, j :: 0 <= i < j < |s| ==> s[j] <= s[i]
  }

  lemma {:induction false} NonIncreasingAppend(s: seq<nat>, x: nat)
    requires NonIncreasing(s)
    requires s != [] ==> x <= s[|s| - 1]
    ensures NonIncreasing(s + [x])
  {
    var t := s + [x];
    forall i, j | 0 <= i < j < |t| ensures t[j] <= t[i] {
      if j == |s| && i < |s| - 1 {
        assert s[|s| - 1] <= s[i];
      }
    }
  }

  /** What the countdown ticks so far leave behind, for a duration `d`: the
      anchor is set once a tick has run, the first value shown is the whole
      duration, no value is larger than the one before, and the latest clock
      reading `lastNow` leaves no more than the last value shown. */
  ghost predicate CountdownLog(d: nat, anchor: Option<nat>, lastNow: nat, log: seq<nat>) {
    && (anchor.Some? <==> log != [])
    && NonIncreasing(log)
    && (log != [] ==>
          var last := log[|log| - 1];
          && log[0] == d
          && last <= d
          && anchor.value <= lastNow
          && (anchor.value == 0 ==> last == d)
          && (anchor.value != 0 ==> Remaining(d, lastNow - anchor.value) <= last))
  }

  /** A countdown tick at a clock reading no earlier than the last keeps the
      log's properties: it anchors only on a falsy anchor, and the value it
      shows is no larger than the one before. */
  lemma CountdownStep(d: nat, anchor: Option<nat>, lastNow: nat, log: seq<nat>, now: nat)
    requires d > 0 && lastNow <= now
    requires CountdownLog(d, anchor, lastNow, log)
    ensures var a := if Truthy(anchor) then anchor.value else now;
      CountdownLog(d, Some(a), now, log + [Remaining(d, now - a)])
  {
    var a := if Truthy(anchor) then anchor.value else now;
    var rem := Remaining(d, now - a);
    if Truthy(anchor) {
      RemainingAntitone(d, lastNow - a, now - a);
    }
    NonIncreasingAppend(log, rem);
    assert (log + [rem])[0] == if log == [] then rem else log[0];
  }

  /** A later clock reading leaves no more time than an earlier one. */
  lemma CountdownIdle(d: nat, anchor: Option<nat>, lastNow: nat, log: seq<nat>, now: nat)
    requires lastNow <= now
    requires CountdownLog(d, anchor, lastNow, log)
    ensures CountdownLog(d, anchor, now, log)
  {
    if log != [] {
      RemainingAntitone(d, lastNow - anchor.value, now - anchor.value);
    }
  }

  /** How many times `onComplete` was called in a stretch of the event log. */
  ghost function Completions(s: seq<Event>): nat
    decreases |s|
  {
    if s == [] then 0
    else Completions(s[..|s| - 1]) + (if s[|s| - 1].Completed? then 1 else 0)
  }

  lemma CompletionsAppend(s: seq<Event>, e: Event)
    ensures Completions(s + [e]) == Completions(s) + (if e.Completed? then 1 else 0)
  {
    assert (s + [e])[..|s|] == s;
  }

  /** One mounted `ResponsiveTimer` component with fixed props. */
  class Timer {
    /** The `durationMs` prop. */
    const durationMs: Option<nat>
    /** Whether an `onComplete` prop was supplied. */
    const hasOnComplete: bool
    /** The `formatTime` prop. */
    const formatTime: Option<nat -> string>
    /** Stands in for `formatCurrentTime`, which reads local-time fields of a `Date`. */
    const currentTimeFormat: nat -> string
    /** `isCountdownRef.current`, fixed when the component is first rendered. */
    const isCountdown: bool

    /** `startTimeRef.current`: the monotonic instant the countdown is measured from. */
    var anchor: Option<nat>
    /** `animationFrameRef.current`: the handle last obtained from the scheduler;
        the source never clears it, so after a frame fires it names a spent registration. */
    var frameRef: Option<Handle>
    /** The scheduler's live registration of the tick callback, if any. */
    var pending: Option<Handle>
    /** The display element's `textContent`. */
    var text: string

    /** Everything written to the display and every `onComplete` call, in order. */
    ghost var events: seq<Event>
    /** Where in `events` the current run (the latest `Start`) begins. */
    ghost var runStart: nat
    /** Whether the current run ended because the countdown reached zero. */
    ghost var finished: bool
    /** Every countdown `remaining` value computed, in order. */
    ghost var remainings: seq<nat>
    /** The monotonic clock reading of the latest tick. */
    ghost var lastNow: nat

    /** The formatter a countdown tick uses: `formatTime || defaultFormatTime`. */
    function CountdownFormat(ms: nat): string
    {
      formatTime.GetOr(DefaultFormatTime)(ms)
    }

    /** The formatter a clock tick uses: `formatTime || formatCurrentTime`. */
    function ClockFormat(wall: nat): string
    {
      formatTime.GetOr(currentTimeFormat)(wall)
    }

    /** The countdown is anchored and the whole duration has elapsed by `now`. */
    ghost predicate Due(now: nat)
      reads this
    {
      Truthy(durationMs) && Truthy(anchor) && now - anchor.value >= durationMs.value
    }

    ghost predicate Valid()
      reads this
    {
      && isCountdown == Truthy(durationMs)
      // a live registration is always the one the ref remembers
      && (pending.Some? ==> frameRef == pending)
      // onComplete is called at most once per run, and a finished run has nothing scheduled
      && runStart <= |events|
      && Completions(events[runStart..]) == (if finished && hasOnComplete then 1 else 0)
      && (finished ==> pending == None)
      // countdown bookkeeping: the anchor is set exactly when a countdown tick has run
      && (!isCountdown ==> remainings == [] && anchor == None)
      && (isCountdown ==> CountdownLog(durationMs.value, anchor, lastNow, remainings))
      && (finished ==> remainings != [] && remainings[|remainings| - 1] == 0)
    }

    /** The first render: the component's initial text, nothing scheduled yet.
        `wall` is the `Date.now()` reading used by a clock-mode first render. */
    constructor (durationMs: Option<nat>, hasOnComplete: bool, formatTime: Option<nat -> string>,
                 currentTimeFormat: nat -> string, wall: nat)
      ensures Valid()
      ensures this.durationMs == durationMs && this.hasOnComplete == hasOnComplete
      ensures this.formatTime == formatTime && this.currentTimeFormat == currentTimeFormat
      ensures isCountdown == Truthy(durationMs)
      ensures anchor == None && frameRef == None && pending == None
      ensures text == if isCountdown then CountdownFormat(durationMs.value) else ClockFormat(wall)
      ensures events == [] && remainings == [] && !finished && lastNow == 0
    {
      this.durationMs := durationMs;
      this.hasOnComplete := hasOnComplete;
      this.formatTime := formatTime;
      this.currentTimeFormat := currentTimeFormat;
      isCountdown := Truthy(durationMs);
      anchor, frameRef, pending := None, None, None;
      text := if Truthy(durationMs)
        then formatTime.GetOr(DefaultFormatTime)(OrZero(durationMs))
        else formatTime.GetOr(currentTimeFormat)(wall);
      events, runStart, finished, remainings, lastNow := [], 0, false, [], 0;
    }

    /** The layout effect: register the first frame with the scheduler. The
        effect only runs when nothing of this component is registered (at
        mount, or after its cleanup). */
    method Start(h: Handle)
      requires Valid() && pending == None
      modifies this
      ensures Valid()
      ensures pending == Some(h) && frameRef == Some(h)
      ensures runStart == |events| && !finished
      ensures anchor == old(anchor) && text == old(text) && events == old(events)
      ensures remainings == old(remainings) && lastNow == old(lastNow)
    {
      frameRef := Some(h);
      pending := Some(h);
      runStart := |events|;
      finished := false;
    }

    /** The effect's cleanup: cancel the frame the ref names, but only when that
        handle is truthy. The ref itself is left as it was. */
    method Stop()
      requires Valid()
      modifies this
      ensures Valid()
      ensures pending == if Truthy(old(frameRef)) then None else old(pending)
      ensures frameRef == old(frameRef) && anchor == old(anchor) && text == old(text)
      ensures events == old(events) && runStart == old(runStart) && finished == old(finished)
      ensures remainings == old(remainings) && lastNow == old(lastNow)
    {
      if Truthy(frameRef) {
        // cancelAnimationFrame(frameRef): drops the registration with that handle, if live
        if pending == frameRef {
          pending := None;
        }
      }
    }

    /** `updateDisplay`, run by the scheduler for the live registration.
        `now` is the `performance.now()` reading, `wall` the `Date.now()`
        reading, `hasDisplay` whether the display element is attached, and
        `next` the handle the scheduler gives a new registration. */
    method Tick(now: nat, wall: nat, hasDisplay: bool, next: Handle)
      requires Valid() && pending.Some?
      requires lastNow <= now
      modifies this
      ensures Valid()
      ensures lastNow == now && runStart == old(runStart)
      // no display element: return at once, nothing re-registered
      ensures !hasDisplay ==>
        && pending == None && frameRef == old(frameRef) && anchor == old(anchor)
        && text == old(text) && events == old(events)
        && remainings == old(remainings) && finished == old(finished)
      // clock mode: render the wall time and re-register, never complete
      ensures hasDisplay && !isCountdown ==>
        && text == ClockFormat(wall) && events == old(events) + [Rendered(text)]
        && pending == Some(next) && frameRef == Some(next)
        && anchor == old(anchor) && remainings == old(remainings) && !finished
      // countdown mode: anchor on an unset (falsy) anchor only, then render what remains
      ensures hasDisplay && isCountdown ==>
        && anchor == Some(if Truthy(old(anchor)) then old(anchor).value else now)
        && var rem := Remaining(durationMs.value, now - anchor.value);
        && text == CountdownFormat(rem)
        && remainings == old(remainings) + [rem]
        && (rem == 0 ==>
              && finished && pending == None && frameRef == old(frameRef)
              && events == old(events) + [Rendered(text)] + (if hasOnComplete then [Completed] else []))
        && (rem > 0 ==>
              && !finished && pending == Some(next) && frameRef == Some(next)
              && events == old(events) + [Rendered(text)])
      // once the whole duration has elapsed since a set anchor, the loop ends
      ensures hasDisplay && old(Due(now)) ==> finished && pending == None
      // the first countdown tick measures from itself: nothing has elapsed
      ensures hasDisplay && isCountdown && !Truthy(old(anchor)) ==>
        remainings == old(remainings) + [durationMs.value] && text == CountdownFormat(durationMs.value)
    {
      pending := None; // the registration that fired is used up
      if !hasDisplay {
        if isCountdown {
          CountdownIdle(durationMs.value, anchor, lastNow, remainings, now);
        }
        lastNow := now;
        return;
      }
      if isCountdown && Truthy(durationMs) {
        CountdownTick(now, next);
      } else {
        ClockTick(now, wall, next);
      }
    }

    /** The countdown branch of `updateDisplay`, after the clock was read. */
    method CountdownTick(now: nat, next: Handle)
      requires Valid() && pending == None && !finished && isCountdown
      requires lastNow <= now
      modifies this
      ensures Valid()
      ensures lastNow == now && runStart == old(runStart)
      ensures anchor == Some(if Truthy(old(anchor)) then old(anchor).value else now)
      ensures var rem := Remaining(durationMs.value, now - anchor.value);
        && text == CountdownFormat(rem)
        && remainings == old(remainings) + [rem]
        && (rem == 0 ==>
              && finished && pending == None && frameRef == old(frameRef)
              && events == old(events) + [Rendered(text)] + (if hasOnComplete then [Completed] else []))
        && (rem > 0 ==>
              && !finished && pending == Some(next) && frameRef == Some(next)
              && events == old(events) + [Rendered(text)])
    {
      CountdownStep(durationMs.value, anchor, lastNow, remainings, now);
      if !Truthy(anchor) {
        anchor := Some(now);
      }
      lastNow := now;
      var elapsed := now - anchor.value;
      var remaining := Remaining(durationMs.value, elapsed);
      text := CountdownFormat(remaining);
      AppendEvent(Rendered(text));
      remainings := remainings + [remaining];
      if remaining <= 0 {
        if hasOnComplete {
          AppendEvent(Completed);
        }
        finished := true;
        return;
      }
      frameRef := Some(next);
      pending := Some(next);
    }

    /** The clock branch of `updateDisplay`. */
    method ClockTick(now: nat, wall: nat, next: Handle)
      requires Valid() && pending == None && !finished && !isCountdown
      modifies this
      ensures Valid()
      ensures text == ClockFormat(wall) && events == old(events) + [Rendered(text)]
      ensures pending == Some(next) && frameRef == Some(next)
      ensures anchor == old(anchor) && remainings == old(remainings) && !finished
      ensures lastNow == now && runStart == old(runStart)
    {
      lastNow := now;
      text := ClockFormat(wall);
      AppendEvent(Rendered(text));
      frameRef := Some(next);
      pending := Some(next);
    }

    /** Logs one event; the count of completions in the run grows only by a `Completed`. */
    ghost method AppendEvent(e: Event)
      requires runStart <= |events|
      modifies this`events
      ensures events == old(events) + [e]
      ensures Completions(events[runStart..]) == Completions(old(events)[runStart..]) + (if e.Completed? then 1 else 0)
    {
      CompletionsAppend(events[runStart..], e);
      assert (events + [e])[runStart..] == events[runStart..] + [e];
      events := events + [e];
    }
  }
}
