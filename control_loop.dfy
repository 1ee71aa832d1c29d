/**
  The `while (true)` loop of `main` in main.cpp. The key bound to `XK_2` is
  pressed once before the loop. Each pass grabs a frame, estimates the
  progress, and then: at or above the threshold it releases the key, waits,
  presses it again and resets the frame counter; otherwise, with Ctrl_L and S
  both down, it releases the key and leaves the loop; otherwise it prints the
  frame rate once more than 1000 ms have passed since the counter was last
  reset. The outside world enters as a finite trace of polls; what the loop
  does to it leaves as a trace of key events and frame-rate reports.
*/
module ControlLoop {
  import opened Keymap
  import opened ProgressEstimator

  /** One `XTestFakeKeyEvent` on the held key, each followed by `XFlush`. */
  datatype KeyEvent = Press | Release

  /** The once-a-second console line: frames counted and the current progress. */
  datatype FpsReport = FpsReport(frames: int, progress: int)

  /** Fixed for the whole run: the accepted threshold and the keycodes of Ctrl_L and S. */
  datatype Config = Config(endProgress: int, ctrlCode: KeyCode, sCode: KeyCode)

  /**
    What one pass reads: the grayscale crop of the grabbed frame, the keymaps of
    the two `keyIsPressed` calls, and the clock in milliseconds (read after the
    cooldown in the threshold branch, before the frame-rate test otherwise).
  */
  datatype Poll = Poll(crop: Gray, ctrlKeys: KeyVector, sKeys: KeyVector, clock: int)

  /** What the loop makes of one poll: the progress, whether Ctrl_L and S are both down, the clock. */
  datatype Sample = Sample(progress: int, hotkey: bool, clock: int)

  function Observe(cfg: Config, p: Poll): (o: Sample)
    ensures 0 <= o.progress <= 99
  {
    Sample(Progress(p.crop), KeyIsPressed(p.ctrlKeys, cfg.ctrlCode) && KeyIsPressed(p.sKeys, cfg.sCode), p.clock)
  }

  function Samples(cfg: Config, polls: seq<Poll>): (os: seq<Sample>)
    ensures |os| == |polls|
  {
    if polls == [] then [] else [Observe(cfg, polls[0])] + Samples(cfg, polls[1..])
  }

  lemma {:induction false} SamplesAt(cfg: Config, polls: seq<Poll>, i: nat)
    requires i < |polls|
    ensures Samples(cfg, polls)[i] == Observe(cfg, polls[i])
    decreases i
  {
    if i > 0 {
      SamplesAt(cfg, polls[1..], i - 1);
    }
  }

  /** The loop's variables, the events emitted so far, and the number of passes made. */
  datatype LoopState = LoopState(
    frameCount: int,
    fpsTime: int,
    keys: seq<KeyEvent>,
    reports: seq<FpsReport>,
    stopped: bool,
    passes: nat)

  /** The threshold test `progress >= endProgress`. */
  predicate Hit(endProgress: int, o: Sample) {
    o.progress >= endProgress
  }

  /** The pass that leaves the loop: below the threshold, both hotkeys down. */
  predicate StopsAt(endProgress: int, o: Sample) {
    !Hit(endProgress, o) && o.hotkey
  }

  /** The state on entering the loop: the key has been pressed once. */
  function Start(clock: int): (s: LoopState) {
    LoopState(0, clock, [Press], [], false, 0)
  }

  /** One pass of the loop, as a function of the state before it. */
  function Step(endProgress: int, s: LoopState, o: Sample): (s': LoopState) {
    var frames := s.frameCount + 1;
    var t := s.(passes := s.passes + 1);
    if Hit(endProgress, o) then
      t.(frameCount := 0, fpsTime := o.clock, keys := s.keys + [Release] + [Press])
    else if StopsAt(endProgress, o) then
      t.(frameCount := frames, keys := s.keys + [Release], stopped := true)
    else if o.clock - s.fpsTime > 1000 then
      t.(frameCount := 0, fpsTime := o.clock, reports := s.reports + [FpsReport(frames, o.progress)])
    else
      t.(frameCount := frames)
  }

  /** Passes over the samples until the loop is left or the trace ends. */
  function Run(endProgress: int, s: LoopState, os: seq<Sample>): (f: LoopState)
    decreases |os|
  {
    if s.stopped || os == [] then s else Run(endProgress, Step(endProgress, s, os[0]), os[1..])
  }

  /** The loop of `main`, from the first key press to the `break` (or the end of the trace). */
  method MainLoop(cfg: Config, startClock: int, polls: seq<Poll>)
    returns (keys: seq<KeyEvent>, reports: seq<FpsReport>, frameCount: int, passes: nat, stopped: bool)
    ensures var f := Run(cfg.endProgress, Start(startClock), Samples(cfg, polls));
      keys == f.keys && reports == f.reports && frameCount == f.frameCount &&
      passes == f.passes && stopped == f.stopped
  {
    ghost var e, os := cfg.endProgress, Samples(cfg, polls);
    ghost var goal := Run(e, Start(startClock), os);
    frameCount := 0;
    var fpsTime := startClock;
    keys := [Press];
    reports := [];
    stopped := false;
    passes := 0;
    while passes < |polls|
      invariant passes <= |polls| && !stopped
      invariant goal == Run(e, LoopState(frameCount, fpsTime, keys, reports, false, passes), os[passes..])
    {
      ghost var before := LoopState(frameCount, fpsTime, keys, reports, false, passes);
      var poll := polls[passes];
      PollAt(cfg, polls, passes);
      RunCons(e, before, os, passes);
      var progress := GetProgress(cfg, polls, passes);
      var hotkey := KeyIsPressed(poll.ctrlKeys, cfg.ctrlCode) && KeyIsPressed(poll.sKeys, cfg.sCode);
      frameCount, fpsTime, keys, reports, stopped :=
        Pass(cfg.endProgress, frameCount, fpsTime, keys, reports, progress, hotkey, poll.clock, passes);
      passes := passes + 1;
      if stopped {
        break;
      }
    }
    RunDone(e, LoopState(frameCount, fpsTime, keys, reports, stopped, passes), os[passes..]);
  }

  /**
    The body of the loop for a pass that has read `progress`, the hot-key test
    and the clock: `return` is the source's `continue`, and `stopped` asks the
    caller to `break`. The pass moves the loop's variables exactly as `Step`.
  */
  method Pass(e: int, frameCount0: int, fpsTime0: int, keys0: seq<KeyEvent>, reports0: seq<FpsReport>,
              progress: int, hotkey: bool, clock: int, ghost passes: nat)
    returns (frameCount: int, fpsTime: int, keys: seq<KeyEvent>, reports: seq<FpsReport>, stopped: bool)
    ensures Step(e, LoopState(frameCount0, fpsTime0, keys0, reports0, false, passes), Sample(progress, hotkey, clock)) ==
      LoopState(frameCount, fpsTime, keys, reports, stopped, passes + 1)
  {
    frameCount, fpsTime, keys, reports, stopped := frameCount0 + 1, fpsTime0, keys0, reports0, false;
    if progress >= e {
      keys := keys + [Release];
      keys := keys + [Press];
      fpsTime := clock;
      frameCount := 0;
      return;
    }
    if hotkey {
      keys := keys + [Release];
      stopped := true;
      return;
    }
    var milliseconds := clock - fpsTime;
    if milliseconds > 1000 {
      reports := reports + [FpsReport(frameCount, progress)];
      fpsTime := clock;
      frameCount := 0;
    }
  }

  /**
    `getProgress` on the frame of pass `i`. Kept as a method of its own so that
    `MainLoop` sees only the sample it yields, not the body of `Progress`.
  */
  method GetProgress(cfg: Config, polls: seq<Poll>, i: nat) returns (progress: int)
    requires i < |polls|
    ensures progress == Samples(cfg, polls)[i].progress
  {
    SamplesAt(cfg, polls, i);
    progress := Progress(polls[i].crop);
  }

  /** The hot-key test and the clock of pass `i`, as that pass samples them. */
  lemma PollAt(cfg: Config, polls: seq<Poll>, i: nat)
    requires i < |polls|
    ensures var o := Samples(cfg, polls)[i];
      && o.hotkey == (KeyIsPressed(polls[i].ctrlKeys, cfg.ctrlCode) && KeyIsPressed(polls[i].sKeys, cfg.sCode))
      && o.clock == polls[i].clock
  {
    SamplesAt(cfg, polls, i);
  }

  /** `Run` leaves the state alone once the loop is left or the samples are used up. */
  lemma RunDone(e: int, s: LoopState, os: seq<Sample>)
    requires s.stopped || os == []
    ensures Run(e, s, os) == s
  {
  }

  /** One pass of `Run` over the samples from position `i` on. */
  lemma RunCons(e: int, s: LoopState, os: seq<Sample>, i: nat)
    requires !s.stopped && i < |os|
    ensures Run(e, s, os[i..]) == Run(e, Step(e, s, os[i]), os[i + 1..])
  {
    assert os[i..][0] == os[i] && os[i..][1..] == os[i + 1..];
  }

  // ----- the key-event trace in closed form -----

  /** Index of the first sample that leaves the loop, or `|os|` when none does. */
  function StopIndex(e: int, os: seq<Sample>): (k: nat)
    ensures k <= |os|
    ensures forall j :: 0 <= j < k ==> !StopsAt(e, os[j])
    ensures k < |os| ==> StopsAt(e, os[k])
  {
    if os == [] then 0
    else if StopsAt(e, os[0]) then 0
    else 1 + StopIndex(e, os[1..])
  }

  /** The number of samples at or above the threshold. */
  function HitCount(e: int, os: seq<Sample>): (n: nat)
    ensures n <= |os|
  {
    if os == [] then 0
    else (if Hit(e, os[0]) then 1 else 0) + HitCount(e, os[1..])
  }

  /** `n` release-then-press cycles. */
  function Cycles(n: nat): (events: seq<KeyEvent>)
    ensures |events| == 2 * n
  {
    if n == 0 then [] else [Release, Press] + Cycles(n - 1)
  }

  /** A pass that does not stop keeps the loop running and emits one cycle exactly on a threshold hit. */
  lemma StepContinues(e: int, s: LoopState, o: Sample)
    requires !s.stopped && !StopsAt(e, o)
    ensures var t := Step(e, s, o);
      && !t.stopped && t.passes == s.passes + 1
      && t.keys == s.keys + (if Hit(e, o) then [Release, Press] else [])
  {
  }

  /** The stopping pass emits one release and leaves the loop. */
  lemma StepStops(e: int, s: LoopState, o: Sample)
    requires !s.stopped && StopsAt(e, o)
    ensures var t := Step(e, s, o);
      t.stopped && t.passes == s.passes + 1 && t.keys == s.keys + [Release]
  {
  }

  /**
    From any running state, the loop makes one pass per sample up to and
    including the first stopping one, and it has stopped exactly when there
    was such a sample.
  */
  lemma {:induction false} RunShape(e: int, s: LoopState, os: seq<Sample>)
    requires !s.stopped
    ensures var f, k := Run(e, s, os), StopIndex(e, os);
      && f.stopped == (k < |os|)
      && f.passes == s.passes + (if k < |os| then k + 1 else |os|)
    decreases |os|
  {
    if os != [] {
      if StopsAt(e, os[0]) {
        StepStops(e, s, os[0]);
      } else {
        StepContinues(e, s, os[0]);
        RunShape(e, Step(e, s, os[0]), os[1..]);
      }
    }
  }

  /**
    From any running state, the loop emits one release-press cycle for each
    threshold hit before the first stopping sample, and one final release if
    there is a stopping sample.
  */
  lemma {:induction false} RunKeys(e: int, s: LoopState, os: seq<Sample>)
    requires !s.stopped
    ensures var k := StopIndex(e, os);
      Run(e, s, os).keys == s.keys + Cycles(HitCount(e, os[..k])) + (if k < |os| then [Release] else [])
    decreases |os|
  {
    var k := StopIndex(e, os);
    if os == [] {
      assert os[..k] == [];
      assert s.keys + [] + [] == s.keys;
    } else if StopsAt(e, os[0]) {
      assert os[..k] == [];
      StepStops(e, s, os[0]);
      assert s.keys + [] + [Release] == s.keys + [Release];
    } else {
      var s1 := Step(e, s, os[0]);
      var rest := os[1..];
      StepContinues(e, s, os[0]);
      RunKeys(e, s1, rest);
      var k' := StopIndex(e, rest);
      assert os[..k][1..] == rest[..k'];
      var hs := if Hit(e, os[0]) then [Release, Press] else [];
      var c := Cycles(HitCount(e, rest[..k']));
      assert Cycles(HitCount(e, os[..k])) == hs + c;
      assert (s.keys + hs) + c == s.keys + (hs + c);
    }
  }

  /** Events alternate press, release, press, ..., starting with the press before the loop. */
  ghost predicate Alternating(events: seq<KeyEvent>) {
    forall i :: 0 <= i < |events| ==> events[i] == (if i % 2 == 0 then Press else Release)
  }

  lemma {:induction false} CyclesAt(n: nat, i: nat)
    requires i < 2 * n
    ensures Cycles(n)[i] == (if i % 2 == 0 then Release else Press)
    decreases n
  {
    var rest := Cycles(n - 1);
    assert Cycles(n) == [Release, Press] + rest;
    if i >= 2 {
      CyclesAt(n - 1, i - 2);
      assert Cycles(n)[i] == rest[i - 2];
      assert (i - 2) % 2 == i % 2;
    }
  }

  /**
    The key trace of a whole session: the key is pressed first, presses and
    releases alternate (so the key is always either held or released), and
    the last event is a release exactly when the loop was left.
  */
  lemma KeyTrace(e: int, startClock: int, os: seq<Sample>)
    ensures var f := Run(e, Start(startClock), os);
      && Alternating(f.keys)
      && |f.keys| > 0
      && f.keys[|f.keys| - 1] == (if f.stopped then Release else Press)
  {
    RunShape(e, Start(startClock), os);
    RunKeys(e, Start(startClock), os);
    var k := StopIndex(e, os);
    CyclesAlternate(HitCount(e, os[..k]), k < |os|);
  }

  /** The initial press, `n` cycles and possibly a final release alternate, ending in the release if there is one. */
  lemma CyclesAlternate(n: nat, released: bool)
    ensures var events := [Press] + Cycles(n) + (if released then [Release] else []);
      && Alternating(events)
      && events[|events| - 1] == (if released then Release else Press)
  {
    var c := Cycles(n);
    var tail := if released then [Release] else [];
    var events := [Press] + c + tail;
    forall i | 0 <= i < |events|
      ensures events[i] == (if i % 2 == 0 then Press else Release)
    {
      if i == 0 {
        assert events[i] == Press;
      } else if i <= 2 * n {
        assert events[i] == c[i - 1];
        CyclesAt(n, i - 1);
      } else {
        assert i == 2 * n + 1 && events[i] == tail[0];
      }
    }
    if !released && n > 0 {
      CyclesAt(n, 2 * n - 1);
    }
  }

  /**
    The loop is left exactly when some poll is below the threshold with
    Ctrl_L and S both down in that same poll.
  */
  lemma Session(cfg: Config, startClock: int, polls: seq<Poll>)
    ensures var f := Run(cfg.endProgress, Start(startClock), Samples(cfg, polls));
      && (f.stopped <==> exists j :: 0 <= j < |polls| && StopsAt(cfg.endProgress, Observe(cfg, polls[j])))
  {
    var e, os := cfg.endProgress, Samples(cfg, polls);
    RunShape(e, Start(startClock), os);
    KeyTrace(e, startClock, os);
    var k := StopIndex(e, os);
    if k < |os| {
      SamplesAt(cfg, polls, k);
    }
    forall j | 0 <= j < |polls| && StopsAt(e, Observe(cfg, polls[j]))
      ensures k < |os|
    {
      SamplesAt(cfg, polls, j);
    }
  }

  /**
    With an argument of 0 every pass hits the threshold, so the hot-key test
    is always skipped and Ctrl_L+S can never stop the loop.
  */
  lemma ZeroThresholdNeverStops(cfg: Config, startClock: int, polls: seq<Poll>)
    requires cfg.endProgress == 0
    ensures !Run(0, Start(startClock), Samples(cfg, polls)).stopped
  {
    Session(cfg, startClock, polls);
  }

  /** Stopping needs both keys in the same poll: Ctrl_L alone, or S alone, never stops the loop. */
  lemma HotkeyNeedsBoth(cfg: Config, p: Poll)
    requires !KeyIsPressed(p.ctrlKeys, cfg.ctrlCode) || !KeyIsPressed(p.sKeys, cfg.sCode)
    ensures !StopsAt(cfg.endProgress, Observe(cfg, p))
  {
  }

  /** The threshold test comes first: a hit never stops the loop, whatever the keys. */
  lemma ThresholdBeforeHotkey(e: int, s: LoopState, o: Sample)
    requires Hit(e, o)
    ensures var t := Step(e, s, o);
      t.stopped == s.stopped && t.keys == s.keys + [Release, Press] && t.frameCount == 0 && t.fpsTime == o.clock
  {
  }

  /** Once the loop has been left, nothing more happens. */
  lemma NothingAfterStop(e: int, s: LoopState, os: seq<Sample>)
    requires s.stopped
    ensures Run(e, s, os) == s
  {
  }

  /** The frame-rate window: below the threshold and without the hotkey, a pass reports and resets after more than 1000 ms. */
  lemma FpsWindow(e: int, s: LoopState, o: Sample)
    requires !Hit(e, o) && !o.hotkey
    ensures var t := Step(e, s, o);
      if o.clock - s.fpsTime > 1000 then
        t.frameCount == 0 && t.fpsTime == o.clock && t.reports == s.reports + [FpsReport(s.frameCount + 1, o.progress)]
      else
        t.frameCount == s.frameCount + 1 && t.fpsTime == s.fpsTime && t.reports == s.reports
  {
  }

  /** The frame counter never exceeds the passes made, and every report counts at least the frame that triggered it. */
  ghost predicate Counters(s: LoopState) {
    0 <= s.frameCount <= s.passes && forall r :: r in s.reports ==> r.frames >= 1
  }

  lemma {:induction false} CountersKept(e: int, s: LoopState, os: seq<Sample>)
    requires Counters(s)
    ensures Counters(Run(e, s, os))
    decreases |os|
  {
    if !s.stopped && os != [] {
      var t := Step(e, s, os[0]);
      assert Counters(t);
      CountersKept(e, t, os[1..]);
    }
  }

  /** The counters of a whole session. */
  lemma SessionCounters(e: int, startClock: int, os: seq<Sample>)
    ensures Counters(Run(e, Start(startClock), os))
  {
    CountersKept(e, Start(startClock), os);
  }
}
