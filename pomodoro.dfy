/**
 * The Pomodoro timer: a countdown through work, short-break and long-break
 * sessions that counts the completed work sessions. The one-second interval
 * and the completion sound are left to the caller: `Tick` is one firing of
 * the interval, `OnRemainingChange` one run of the effect that watches the
 * countdown.
 */
module Pomodoro {

  datatype Mode = Work | ShortBreak | LongBreak

  /** `TIMES`: the length of each session, in seconds. */
  function Duration(m: Mode): (seconds: int)
    ensures seconds > 0
    ensures m == Work ==> seconds == 25 * 60
    ensures m == ShortBreak ==> seconds == 5 * 60
    ensures m == LongBreak ==> seconds == 15 * 60
  {
    match m
    case Work => 1500
    case ShortBreak => 300
    case LongBreak => 900
  }

  /** The break that follows the work session numbered `count`: every fourth one is long. */
  function BreakAfter(count: nat): (m: Mode)
    ensures m != Work
    ensures m == LongBreak <==> count % 4 == 0
  {
    if count % 4 == 0 then LongBreak else ShortBreak
  }

  class PomodoroTimer {
    var mode: Mode
    var timeRemaining: int
    var isActive: bool
    var pomodoros: nat

    /** The countdown never leaves the range of the current session. */
    predicate Valid()
      reads this
    {
      0 <= timeRemaining <= Duration(mode)
    }

    /** The initial state: a full work session, stopped, nothing completed. */
    constructor ()
      ensures Valid()
      ensures mode == Work && timeRemaining == 1500 && !isActive && pomodoros == 0
    {
      mode := Work;
      timeRemaining := Duration(Work);
      isActive := false;
      pomodoros := 0;
    }

    /** One firing of the interval: one second off, registered only while running with time left. */
    method Tick()
      requires Valid()
      modifies this
      ensures Valid()
      ensures old(isActive && timeRemaining > 0) ==> timeRemaining == old(timeRemaining) - 1
      ensures !old(isActive && timeRemaining > 0) ==> timeRemaining == old(timeRemaining)
      ensures mode == old(mode) && isActive == old(isActive) && pomodoros == old(pomodoros)
    {
      if isActive && timeRemaining > 0 {
        timeRemaining := timeRemaining - 1;
      }
    }

    /** `handleSessionEnd`: stop, and move from work to a break or from a break to work. */
    method HandleSessionEnd()
      requires Valid()
      modifies this
      ensures Valid()
      ensures !isActive
      ensures timeRemaining == Duration(mode)
      ensures old(mode) == Work ==> pomodoros == old(pomodoros) + 1 && mode == BreakAfter(pomodoros)
      ensures old(mode) != Work ==> pomodoros == old(pomodoros) && mode == Work
    {
      isActive := false;
      if mode == Work {
        var newPomodoroCount := pomodoros + 1;
        pomodoros := newPomodoroCount;
        if newPomodoroCount % 4 == 0 {
          mode := LongBreak;
          timeRemaining := Duration(LongBreak);
        } else {
          mode := ShortBreak;
          timeRemaining := Duration(ShortBreak);
        }
      } else {
        mode := Work;
        timeRemaining := Duration(Work);
      }
    }

    /**
     * The effect on `isActive` and `timeRemaining`: while running with time
     * left it only keeps the interval; when the countdown is at zero it ends
     * the session.
     */
    method OnRemainingChange()
      requires Valid()
      modifies this
      ensures Valid()
      ensures old(timeRemaining) != 0 ==>
                && mode == old(mode) && timeRemaining == old(timeRemaining)
                && isActive == old(isActive) && pomodoros == old(pomodoros)
      ensures old(timeRemaining) == 0 ==> !isActive && timeRemaining == Duration(mode) > 0
      ensures old(timeRemaining) == 0 && old(mode) == Work ==>
                pomodoros == old(pomodoros) + 1 && mode == BreakAfter(pomodoros)
      ensures old(timeRemaining) == 0 && old(mode) != Work ==>
                pomodoros == old(pomodoros) && mode == Work
    {
      if isActive && timeRemaining > 0 {
      } else if timeRemaining == 0 {
        HandleSessionEnd();
      }
    }

    /** `toggleTimer`: start or pause; nothing else changes. */
    method ToggleTimer()
      requires Valid()
      modifies this
      ensures Valid()
      ensures isActive == !old(isActive)
      ensures mode == old(mode) && timeRemaining == old(timeRemaining) && pomodoros == old(pomodoros)
    {
      isActive := !isActive;
    }

    /** `resetTimer`: back to the initial state, completed count included. */
    method ResetTimer()
      requires Valid()
      modifies this
      ensures Valid()
      ensures mode == Work && timeRemaining == 1500 && !isActive && pomodoros == 0
    {
      isActive := false;
      mode := Work;
      timeRemaining := Duration(Work);
      pomodoros := 0;
    }

    /** `selectMode`: stop and start `newMode` afresh; the completed count is kept. */
    method SelectMode(newMode: Mode)
      requires Valid()
      modifies this
      ensures Valid()
      ensures !isActive && mode == newMode && timeRemaining == Duration(newMode)
      ensures pomodoros == old(pomodoros)
    {
      isActive := false;
      mode := newMode;
      timeRemaining := Duration(newMode);
    }

    /**
     * A whole session: the user starts the timer and lets the countdown run
     * out, with the effect running after every tick.
     */
    method RunSession()
      requires Valid() && !isActive && timeRemaining > 0
      modifies this
      ensures Valid() && !isActive && timeRemaining == Duration(mode)
      ensures old(mode) == Work ==> pomodoros == old(pomodoros) + 1 && mode == BreakAfter(pomodoros)
      ensures old(mode) != Work ==> pomodoros == old(pomodoros) && mode == Work
    {
      ToggleTimer();
      while isActive
        invariant Valid()
        invariant isActive ==> mode == old(mode) && pomodoros == old(pomodoros) && timeRemaining > 0
        invariant !isActive ==> timeRemaining == Duration(mode)
        invariant !isActive && old(mode) == Work ==> pomodoros == old(pomodoros) + 1 && mode == BreakAfter(pomodoros)
        invariant !isActive && old(mode) != Work ==> pomodoros == old(pomodoros) && mode == Work
        decreases isActive, timeRemaining
      {
        Tick();
        OnRemainingChange();
      }
    }
  }

  /**
   * From a fresh timer, four work sessions alternating with three breaks end
   * in a long break with four completed sessions.
   */
  method FourPomodoros() returns (mode: Mode, count: nat)
    ensures mode == LongBreak && count == 4
  {
    var timer := new PomodoroTimer();
    var sessions := 0;
    while sessions < 7
      invariant 0 <= sessions <= 7
      invariant timer.Valid() && !timer.isActive && timer.timeRemaining == Duration(timer.mode)
      invariant timer.pomodoros == (sessions + 1) / 2
      invariant timer.mode == if sessions % 2 == 0 then Work else BreakAfter(timer.pomodoros)
    {
      timer.RunSession();
      sessions := sessions + 1;
    }
    mode, count := timer.mode, timer.pomodoros;
  }

  /** The `mm:ss` display: whole minutes and the seconds left over. */
  function Clock(timeRemaining: nat): (r: (nat, nat))
    ensures r.0 * 60 + r.1 == timeRemaining
    ensures r.1 < 60
    ensures timeRemaining <= 1500 ==> r.0 <= 25
  {
    (timeRemaining / 60, timeRemaining % 60)
  }
}
