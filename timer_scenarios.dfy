/** Whole runs of the timer driven by a hand-stepped clock and scheduler:
    what the display shows, whether a frame is still registered, and how often
    `onComplete` was called. */
module TimerScenarios {
  import opened Options
  import opened TimeFormat
  import opened ResponsiveTimer

  /** The first two frames of a one-second countdown, at 100 and 500 ms of the
      monotonic clock: the first anchors, both re-register. */
  method FirstTwoFrames(format: nat -> string) returns (t: Timer, texts: seq<string>)
    ensures fresh(t) && t.Valid()
    ensures t.durationMs == Some(1000) && t.hasOnComplete && t.formatTime == Some(format)
    ensures t.anchor == Some(100) && t.pending == Some(3) && t.lastNow == 500
    ensures t.runStart == 0 && !t.finished && t.remainings == [1000, 600]
    ensures texts == [format(1000), format(600)]
    ensures t.events == [Rendered(texts[0]), Rendered(texts[1])]
  {
    t := new Timer(Some(1000), true, Some(format), (w: nat) => "", 0);
    t.Start(1);
    t.Tick(100, 0, true, 2);
    assert t.anchor == Some(100) && t.pending == Some(2);
    texts := [t.text];
    t.Tick(500, 0, true, 3);
    texts := texts + [t.text];
  }

  /** A one-second countdown whose frames arrive at 100, 500, 1000 and 1100 ms
      of the monotonic clock shows 1000, 600, 100 and 0 ms remaining, then stops
      with `onComplete` called once. */
  method OneSecondCountdown(format: nat -> string) returns (texts: seq<string>, stillScheduled: bool, ghost calls: nat)
    ensures texts == [format(1000), format(600), format(100), format(0)]
    ensures !stillScheduled && calls == 1
  {
    var t;
    t, texts := FirstTwoFrames(format);
    t.Tick(1000, 0, true, 4);
    assert t.anchor == Some(100) && t.pending == Some(4);
    texts := texts + [t.text];
    t.Tick(1100, 0, true, 5);
    assert t.finished;
    texts := texts + [t.text];
    stillScheduled := t.pending.Some?;
    calls := Completions(t.events);
  }

  /** The same countdown on a clock whose first frame reads 0: an anchor of 0
      counts as unset, so the second frame anchors again, and at 1000 ms there
      are still 400 ms to go. */
  method CountdownFromClockZero(format: nat -> string) returns (texts: seq<string>, stillScheduled: bool)
    ensures texts == [format(1000), format(1000), format(500), format(400)]
    ensures stillScheduled
  {
    var t := new Timer(Some(1000), true, Some(format), (w: nat) => "", 0);
    t.Start(1);
    t.Tick(0, 0, true, 2);
    assert t.anchor == Some(0) && t.pending == Some(2);
    texts := [t.text];
    t.Tick(400, 0, true, 3);
    assert t.anchor == Some(400) && t.pending == Some(3);
    texts := texts + [t.text];
    t.Tick(900, 0, true, 4);
    assert t.anchor == Some(400) && t.pending == Some(4);
    texts := texts + [t.text];
    t.Tick(1000, 0, true, 5);
    texts := texts + [t.text];
    stillScheduled := t.pending.Some?;
  }

  /** The start instant is never reset: when the effect runs again after a
      countdown has completed, the next frame still measures from the old
      anchor, completes at once and calls `onComplete` a second time. */
  method RestartAfterCompletion(format: nat -> string) returns (stillScheduled: bool, ghost events: seq<Event>)
    ensures !stillScheduled
    ensures events == [Rendered(format(1000)), Rendered(format(0)), Completed, Rendered(format(0)), Completed]
  {
    var t := new Timer(Some(1000), true, Some(format), (w: nat) => "", 0);
    t.Start(1);
    t.Tick(100, 0, true, 2);
    assert t.anchor == Some(100) && t.pending == Some(2) && t.frameRef == Some(2);
    t.Tick(1100, 0, true, 3);
    assert t.finished && t.frameRef == Some(2) && t.anchor == Some(100);
    ghost var firstRun := t.events;
    assert firstRun == [Rendered(format(1000)), Rendered(format(0)), Completed];
    t.Stop();
    t.Start(4);
    assert t.anchor == Some(100) && t.events == firstRun && t.lastNow == 1100;
    t.Tick(1200, 0, true, 5);
    assert t.events == firstRun + [Rendered(format(0)), Completed];
    stillScheduled := t.pending.Some?;
    events := t.events;
  }

  /** A zero duration is falsy, so the timer runs as a clock: it shows the
      wall time, keeps re-registering and never calls `onComplete`. */
  method ZeroDurationRunsAsClock(clockFormat: nat -> string, wall: nat)
    returns (text: string, stillScheduled: bool, ghost calls: nat)
    ensures text == clockFormat(wall) && stillScheduled && calls == 0
  {
    var t := new Timer(Some(0), true, None, clockFormat, 0);
    t.Start(1);
    t.Tick(5, wall, true, 2);
    t.Tick(9, wall, true, 3);
    text := t.text;
    stillScheduled := t.pending.Some?;
    calls := Completions(t.events);
    CompletionsAppend([Rendered(clockFormat(wall))], Rendered(text));
    CompletionsAppend([], Rendered(clockFormat(wall)));
  }

  /** Cleaning up before the first frame: nothing is rendered by a tick, nothing
      stays registered, and a second cleanup changes nothing. */
  method StopBeforeFirstFrame(durationMs: Option<nat>) returns (stillScheduled: bool, ghost events: seq<Event>)
    ensures !stillScheduled && events == []
  {
    var t := new Timer(durationMs, true, None, (w: nat) => "", 0);
    t.Start(7);
    t.Stop();
    t.Stop();
    stillScheduled := t.pending.Some?;
    events := t.events;
  }

  /** A frame whose display element is gone renders nothing and does not
      re-register, so the loop ends without `onComplete`. */
  method DetachedDisplayEndsLoop(format: nat -> string) returns (stillScheduled: bool, text: string)
    ensures !stillScheduled && text == format(1000)
  {
    var t := new Timer(Some(1000), true, Some(format), (w: nat) => "", 0);
    t.Start(1);
    t.Tick(50, 0, false, 2);
    stillScheduled := t.pending.Some?;
    text := t.text;
  }

  /** The cleanup skips a falsy handle: had the scheduler handed out 0, the
      frame would stay registered after cleanup. */
  method ZeroHandleSurvivesCleanup() returns (stillScheduled: bool)
    ensures stillScheduled
  {
    var t := new Timer(Some(1000), true, None, (w: nat) => "", 0);
    t.Start(0);
    t.Stop();
    stillScheduled := t.pending.Some?;
  }
}
