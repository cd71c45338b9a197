/**
  The timer as script.js keeps it: module-level variables changed in place
  by the handlers. Each handler method is specified by the Session function
  of the same name, and GenerateScramble by Session.NewScramble; the clock
  reading is an argument.
 */
module Timer {
  import opened History
  import Session
  import Scramble

  class CubeTimer {
    var running: bool
    var startTime: int
    var savedTime: int
    var difference: int
    var timesList: seq<Record>
    var currentScramble: string
    var spacePressed: bool
    /** Whether the device has touch input, probed once at start-up. */
    const isMobile: bool
    /** The moves that currentScramble spells out. */
    ghost var moves: seq<string>

    ghost predicate Valid()
      reads this
    {
      && Scramble.IsScramble(moves)
      && currentScramble == Scramble.Join(moves)
      && Session.RecordsPositive(timesList)
    }

    /** The variables as one value. */
    function State(): Session.State
      reads this
    {
      Session.State(running, startTime, savedTime, difference, timesList, currentScramble, spacePressed)
    }

    /** Start-up: initial variables, then the first generateScramble. */
    constructor (isMobile: bool)
      ensures Valid()
      ensures State() == Session.Initial(currentScramble)
      ensures this.isMobile == isMobile
    {
      this.isMobile := isMobile;
      running, startTime, savedTime, difference := false, 0, 0, 0;
      timesList, spacePressed := [], false;
      new;
      GenerateScramble();
    }

    /** generateScramble: twenty moves, joined, become the current scramble. */
    method GenerateScramble()
      modifies this
      ensures Scramble.IsScramble(moves) && currentScramble == Scramble.Join(moves)
      ensures State() == Session.NewScramble(old(State()), currentScramble)
    {
      var ms := Scramble.Generate();
      moves := ms;
      currentScramble := Scramble.Join(ms);
    }

    /** startTimer. */
    method Start(now: int)
      requires Valid()
      modifies this
      ensures Valid() && moves == old(moves)
      ensures State() == Session.Start(old(State()), now)
    {
      if !running {
        startTime := now - savedTime;
        running := true;
      }
    }

    /** The arithmetic of updateTimer, run by the interval while the timer is running. */
    method Tick(now: int)
      requires Valid() && running
      modifies this
      ensures Valid() && moves == old(moves)
      ensures State() == Session.Tick(old(State()), now)
    {
      difference := now - startTime;
    }

    /** stopTimer: appends to timesList in place when the saved time is positive. */
    method Stop()
      requires Valid()
      modifies this
      ensures Valid() && moves == old(moves)
      ensures State() == Session.Stop(old(State()))
    {
      if running {
        savedTime := difference;
        running := false;
        if savedTime > 0 {
          timesList := timesList + [Record(savedTime, currentScramble)];
        }
      }
    }

    /** resetTimer. */
    method Reset()
      requires Valid()
      modifies this
      ensures Valid()
      ensures State() == Session.Reset(old(State()), currentScramble)
    {
      savedTime := 0;
      difference := 0;
      running := false;
      GenerateScramble();
    }

    /** resetAll: resetTimer, then an empty history. */
    method ResetAll()
      requires Valid()
      modifies this
      ensures Valid()
      ensures State() == Session.ResetAll(old(State()), currentScramble)
    {
      Reset();
      timesList := [];
    }

    /** The three-way rule shared by the keyboard and the touch handler. */
    method Trigger(now: int)
      requires Valid()
      modifies this
      ensures Valid()
      ensures State() == Session.Trigger(old(State()), now, currentScramble)
    {
      if running {
        Stop();
      } else if savedTime > 0 {
        Reset();
      } else {
        Start(now);
      }
    }

    /** handleKeyPress for a keydown event with the given `e.code`. */
    method KeyDown(code: string, now: int)
      requires Valid()
      modifies this
      ensures Valid()
      ensures State() == Session.KeyDown(old(State()), code, now, currentScramble)
    {
      if code == Session.SpaceCode {
        if !spacePressed {
          spacePressed := true;
          Trigger(now);
        }
      }
    }

    /** The keyup listener. */
    method KeyUp(code: string)
      requires Valid()
      modifies this
      ensures Valid() && moves == old(moves)
      ensures State() == Session.KeyUp(old(State()), code)
    {
      if code == Session.SpaceCode {
        spacePressed := false;
      }
    }

    /** handleTap. */
    method Tap(now: int)
      requires Valid()
      modifies this
      ensures Valid()
      ensures State() == Session.Tap(old(State()), isMobile, now, currentScramble)
    {
      if isMobile {
        Trigger(now);
      }
    }
  }
}
