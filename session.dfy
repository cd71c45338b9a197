/**
  The timer's state as one value, and each handler of script.js as a
  function from the state before to the state after. The clock reading
  (`new Date().getTime()`) and the scramble a reset generates are
  parameters. The class in timer.dfy is specified by these functions.
 */
module Session {
  import opened History
  import TimeFormat

  /** The module-level variables of script.js that the handlers change. */
  datatype State = State(
    running: bool,
    startTime: int,
    savedTime: int,
    difference: int,
    timesList: seq<Record>,
    currentScramble: string,
    spacePressed: bool)

  /** The designated key: `e.code === 'Space'`. */
  const SpaceCode: string := "Space"

  /** Every stored solve took a positive time. */
  predicate RecordsPositive(times: seq<Record>)
  {
    forall i :: 0 <= i < |times| ==> times[i].time > 0
  }

  /**
    The state after the script has loaded: not running, nothing saved,
    no history, the first scramble generated. `startTime` and `difference`
    are `undefined` in the script; here they are 0.
   */
  function Initial(scramble: string): (s: State)
    ensures !s.running && s.savedTime == 0 && s.timesList == [] && !s.spacePressed
    ensures s.currentScramble == scramble
  {
    State(false, 0, 0, 0, [], scramble, false)
  }

  /** startTimer: only when not running; the origin is set back by the saved time. */
  function Start(s: State, now: int): (r: State)
    ensures r.running
    ensures s.running ==> r == s
    ensures r.timesList == s.timesList && r.savedTime == s.savedTime
    ensures !s.running ==> r.startTime == now - s.savedTime && r.(startTime := s.startTime, running := false) == s
    ensures RecordsPositive(s.timesList) ==> RecordsPositive(r.timesList)
  {
    if s.running then s
    else s.(startTime := now - s.savedTime, running := true)
  }

  /** The tick of updateTimer: the elapsed time since the origin. Ticks happen only while running. */
  function Tick(s: State, now: int): (r: State)
    requires s.running
    ensures r.running && r.timesList == s.timesList && r.savedTime == s.savedTime
    ensures r.startTime == s.startTime && r.difference == now - s.startTime
    ensures r.(difference := s.difference) == s
  {
    s.(difference := now - s.startTime)
  }

  /**
    stopTimer: only when running. The time of the last tick is saved, and
    recorded with the current scramble when it is positive.
   */
  function Stop(s: State): (r: State)
    ensures !r.running
    ensures !s.running ==> r == s
    ensures s.running ==> r.savedTime == s.difference
    ensures s.running ==> r.(savedTime := s.savedTime, running := true, timesList := s.timesList) == s
    ensures |s.timesList| <= |r.timesList| <= |s.timesList| + 1
    ensures r.timesList[..|s.timesList|] == s.timesList
    ensures RecordsPositive(s.timesList) ==> RecordsPositive(r.timesList)
  {
    if !s.running then s
    else
      var saved := s.difference;
      s.(savedTime := saved, running := false,
         timesList := if saved > 0 then s.timesList + [Record(saved, s.currentScramble)] else s.timesList)
  }

  /** resetTimer: back to zero, stopped, with a newly generated scramble; the history is kept. */
  function Reset(s: State, scramble: string): (r: State)
    ensures !r.running && r.savedTime == 0 && r.difference == 0
    ensures r.timesList == s.timesList && r.spacePressed == s.spacePressed
    ensures r.startTime == s.startTime
    ensures r.currentScramble == scramble
  {
    s.(savedTime := 0, difference := 0, running := false, currentScramble := scramble)
  }

  /** resetAll: resetTimer, and the history is emptied. */
  function ResetAll(s: State, scramble: string): (r: State)
    ensures !r.running && r.savedTime == 0 && r.difference == 0 && r.timesList == []
    ensures r.currentScramble == scramble
    ensures r.(timesList := s.timesList) == Reset(s, scramble)
  {
    Reset(s, scramble).(timesList := [])
  }

  /** The rule a keypress and a tap share: stop if running, else reset if a time is saved, else start. */
  function Trigger(s: State, now: int, scramble: string): (r: State)
    ensures r.spacePressed == s.spacePressed
    ensures s.running ==> r == Stop(s)
    ensures !s.running && s.savedTime > 0 ==> r == Reset(s, scramble) && !r.running
    ensures !s.running && s.savedTime <= 0 ==> r == Start(s, now) && r.running
  {
    if s.running then Stop(s)
    else if s.savedTime > 0 then Reset(s, scramble)
    else Start(s, now)
  }

  /** handleKeyPress on a keydown: a Space press acts once, until a Space keyup. */
  function KeyDown(s: State, code: string, now: int, scramble: string): (r: State)
    ensures code != SpaceCode || s.spacePressed ==> r == s
    ensures code == SpaceCode && !s.spacePressed ==> r == Trigger(s.(spacePressed := true), now, scramble)
    ensures code == SpaceCode ==> r.spacePressed
  {
    if code == SpaceCode && !s.spacePressed then
      Trigger(s.(spacePressed := true), now, scramble)
    else s
  }

  /** The keyup listener: a Space release clears the press flag and nothing else. */
  function KeyUp(s: State, code: string): (r: State)
    ensures code == SpaceCode ==> !r.spacePressed && r.(spacePressed := s.spacePressed) == s
    ensures code != SpaceCode ==> r == s
  {
    if code == SpaceCode then s.(spacePressed := false) else s
  }

  /** handleTap: a tap triggers on a touch device and is ignored elsewhere. */
  function Tap(s: State, isMobile: bool, now: int, scramble: string): (r: State)
    ensures !isMobile ==> r == s
    ensures isMobile ==> r == Trigger(s, now, scramble)
  {
    if isMobile then Trigger(s, now, scramble) else s
  }

  /** generateScramble from the "new scramble" button: only the scramble changes. */
  function NewScramble(s: State, scramble: string): (r: State)
    ensures r.currentScramble == scramble && r.(currentScramble := s.currentScramble) == s
  {
    s.(currentScramble := scramble)
  }

  // ---------------------------------------------------------------------------
  // Sequences of events.

  /**
    What reaches the handlers: key and tap events with the clock reading
    and the scramble a reset would generate, interval ticks, and the two
    buttons.
   */
  datatype Event =
    | KeyDownEvent(code: string, now: int, scramble: string)
    | KeyUpEvent(code: string)
    | TapEvent(now: int, scramble: string)
    | TickEvent(now: int)
    | ResetAllEvent(scramble: string)
    | NewScrambleEvent(scramble: string)

  /**
    One event. A tick fires only while the interval exists, that is while
    running. Only "reset all" shortens the history and no event adds more
    than one record; only a Space keyup clears the press flag, and while it
    is set a Space keydown is ignored.
   */
  function Step(s: State, isMobile: bool, e: Event): (r: State)
    ensures e.TickEvent? && !s.running ==> r == s
    ensures !e.ResetAllEvent? ==>
              s.timesList <= r.timesList && |r.timesList| <= |s.timesList| + 1
    ensures e == KeyUpEvent(SpaceCode) ==> !r.spacePressed
    ensures e != KeyUpEvent(SpaceCode) && s.spacePressed ==> r.spacePressed
    ensures e.KeyDownEvent? && e.code == SpaceCode && s.spacePressed ==> r == s
  {
    match e
    case KeyDownEvent(code, now, scramble) => KeyDown(s, code, now, scramble)
    case KeyUpEvent(code) => KeyUp(s, code)
    case TapEvent(now, scramble) => Tap(s, isMobile, now, scramble)
    case TickEvent(now) => if s.running then Tick(s, now) else s
    case ResetAllEvent(scramble) => ResetAll(s, scramble)
    case NewScrambleEvent(scramble) => NewScramble(s, scramble)
  }

  /** Events in order. Without "reset all", the history only grows, by at most one record per event. */
  function Run(s: State, isMobile: bool, events: seq<Event>): (r: State)
    ensures (forall i :: 0 <= i < |events| ==> !events[i].ResetAllEvent?) ==>
              s.timesList <= r.timesList && |r.timesList| <= |s.timesList| + |events|
    decreases |events|
  {
    if events == [] then s else Run(Step(s, isMobile, events[0]), isMobile, events[1..])
  }

  // ---------------------------------------------------------------------------
  // Properties.

  /** A second stop changes nothing: saved time and history stay as the first stop left them. */
  lemma StopIdempotent(s: State)
    ensures Stop(Stop(s)) == Stop(s)
  {
  }

  /** A stop that acts appends exactly one record, the saved time with the current scramble, iff that time is positive. */
  lemma StopRecordsPositiveTime(s: State)
    requires s.running
    ensures var r := Stop(s);
      && (|r.timesList| == |s.timesList| + 1 <==> s.difference > 0)
      && (s.difference > 0 ==> r.timesList[|s.timesList|] == Record(s.difference, s.currentScramble))
      && (s.difference <= 0 ==> r.timesList == s.timesList)
  {
  }

  /** A start from a stopped state followed by a tick shows the saved time plus the time since the start. */
  lemma StartThenTick(s: State, now: int, later: int)
    requires !s.running
    ensures Tick(Start(s, now), later).difference == s.savedTime + (later - now)
  {
  }

  /**
    After a solve, the first trigger only resets (new scramble, saved time
    cleared, history kept, not running); the second starts from zero.
   */
  lemma TwoStepReset(s: State, now1: int, scramble1: string, now2: int, scramble2: string)
    requires !s.running && s.savedTime > 0
    ensures var s1 := Trigger(s, now1, scramble1);
      && !s1.running && s1.savedTime == 0 && s1.timesList == s.timesList
      && s1.currentScramble == scramble1
      && var s2 := Trigger(s1, now2, scramble2);
      && s2.running && s2.startTime == now2 && s2.timesList == s.timesList
      && s2.currentScramble == scramble1
  {
  }

  /** No Space keyup among the events. */
  predicate NoSpaceRelease(events: seq<Event>)
  {
    forall i :: 0 <= i < |events| ==> events[i] != KeyUpEvent(SpaceCode)
  }

  /** The events with every Space keydown taken out. */
  function DropSpaceDowns(events: seq<Event>): (r: seq<Event>)
    ensures |r| <= |events|
    ensures forall i :: 0 <= i < |r| ==> r[i] in events && !(r[i].KeyDownEvent? && r[i].code == SpaceCode)
    ensures forall e :: e in events && !(e.KeyDownEvent? && e.code == SpaceCode) ==> e in r
  {
    if events == [] then []
    else
      var rest := DropSpaceDowns(events[1..]);
      assert forall e :: e in events[1..] ==> e in events;
      if events[0].KeyDownEvent? && events[0].code == SpaceCode then rest
      else [events[0]] + rest
  }

  /** Filtering distributes over concatenation, so the surviving events keep their order. */
  lemma {:induction false} DropSpaceDownsAppend(a: seq<Event>, b: seq<Event>)
    ensures DropSpaceDowns(a + b) == DropSpaceDowns(a) + DropSpaceDowns(b)
    decreases |a|
  {
    if a == [] {
      assert a + b == b;
    } else {
      assert (a + b)[0] == a[0] && (a + b)[1..] == a[1..] + b;
      DropSpaceDownsAppend(a[1..], b);
    }
  }

  /** A single event survives exactly when it is not a Space keydown. */
  lemma DropSpaceDownsSingle(e: Event)
    ensures DropSpaceDowns([e]) == if e.KeyDownEvent? && e.code == SpaceCode then [] else [e]
  {
    assert [e][1..] == [];
  }

  /**
    While Space is held (no Space keyup in between), the Space keydowns
    among any other events change nothing: the run is the run without them,
    and the flag stays set.
   */
  lemma {:induction false} HeldSpaceIgnored(s: State, isMobile: bool, events: seq<Event>)
    requires s.spacePressed && NoSpaceRelease(events)
    ensures Run(s, isMobile, events) == Run(s, isMobile, DropSpaceDowns(events))
    ensures Run(s, isMobile, events).spacePressed
    decreases |events|
  {
    if events != [] {
      var e := events[0];
      assert NoSpaceRelease(events[1..]) by {
        assert forall i :: 0 <= i < |events| - 1 ==> events[1..][i] == events[i + 1];
      }
      var s1 := Step(s, isMobile, e);
      HeldSpaceIgnored(s1, isMobile, events[1..]);
      if !(e.KeyDownEvent? && e.code == SpaceCode) {
        var rest := DropSpaceDowns(events[1..]);
        assert ([e] + rest)[0] == e && ([e] + rest)[1..] == rest;
      }
    }
  }

  /**
    A press triggers exactly once, at its first keydown: whatever follows
    before the Space keyup, auto-repeated keydowns included, acts on the
    triggered state as if those keydowns were not there.
   */
  lemma HeldPressTriggersOnce(s: State, isMobile: bool, now: int, scramble: string, events: seq<Event>)
    requires !s.spacePressed && NoSpaceRelease(events)
    ensures Run(s, isMobile, [KeyDownEvent(SpaceCode, now, scramble)] + events)
         == Run(Trigger(s.(spacePressed := true), now, scramble), isMobile, DropSpaceDowns(events))
  {
    var all := [KeyDownEvent(SpaceCode, now, scramble)] + events;
    assert all[0] == KeyDownEvent(SpaceCode, now, scramble) && all[1..] == events;
    HeldSpaceIgnored(Trigger(s.(spacePressed := true), now, scramble), isMobile, events);
  }

  /**
    Auto-repeat alone (keydowns at several moments, nothing in between)
    triggers exactly once, at the first keydown.
   */
  lemma HeldSpaceTriggersOnce(s: State, isMobile: bool, nows: seq<int>, scramble: string)
    requires !s.spacePressed && |nows| >= 1
    ensures Run(s, isMobile, seq(|nows|, i requires 0 <= i < |nows| => KeyDownEvent(SpaceCode, nows[i], scramble)))
         == Trigger(s.(spacePressed := true), nows[0], scramble)
  {
    var events := seq(|nows|, i requires 0 <= i < |nows| => KeyDownEvent(SpaceCode, nows[i], scramble));
    var repeats := events[1..];
    assert events == [KeyDownEvent(SpaceCode, nows[0], scramble)] + repeats;
    assert forall i :: 0 <= i < |repeats| ==> repeats[i] == KeyDownEvent(SpaceCode, nows[i + 1], scramble);
    HeldPressTriggersOnce(s, isMobile, nows[0], scramble, repeats);
    assert DropSpaceDowns(repeats) == [];
  }

  /** No sequence of events stores a record whose time is not positive. */
  lemma {:induction false} RunKeepsRecordsPositive(s: State, isMobile: bool, events: seq<Event>)
    requires RecordsPositive(s.timesList)
    ensures RecordsPositive(Run(s, isMobile, events).timesList)
    decreases |events|
  {
    if events != [] {
      var s1 := Step(s, isMobile, events[0]);
      assert RecordsPositive(s1.timesList);
      RunKeepsRecordsPositive(s1, isMobile, events[1..]);
    }
  }

  /**
    A timed solve from the initial state: a trigger at t0 starts, a tick
    1050 ms later, and a trigger stops and records 1050 ms with the
    scramble, shown as "01.05".
   */
  lemma SolveScenario(scramble: string, scramble2: string, t0: int)
    ensures var s1 := Trigger(Initial(scramble), t0, scramble2);
      && s1.running && s1.startTime == t0
      && var s3 := Trigger(Tick(s1, t0 + 1050), t0 + 1100, scramble2);
      && !s3.running && s3.savedTime == 1050
      && s3.timesList == [Record(1050, scramble)]
      && TimeFormat.FormatTime(s3.savedTime) == "01.05"
  {
    TimeFormat.FormatExamples();
  }
}
