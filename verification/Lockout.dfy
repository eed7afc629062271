/** Account lockout (server/app/services/auth_service.py:164-192, 361-374). Times are seconds. */
module Lockout {
  import opened Text

  datatype Settings = Settings(maxAttempts: int, lockoutSeconds: real)

  datatype Account = Account(failed: int, lockedUntil: Option<real>, active: bool)

  /** The status of a login attempt that passed the rate limiter. */
  datatype Verdict = LoggedIn | WrongPassword | Disabled | Locked

  predicate IsLocked(a: Account, now: real) {
    a.lockedUntil.Some? && a.lockedUntil.value > now
  }

  /** The first wrong password locks too when the setting is zero or less. */
  function Limit(c: Settings): int {
    if c.maxAttempts >= 1 then c.maxAttempts else 1
  }

  class User {
    var failed: int
    var lockedUntil: Option<real>
    var active: bool

    function Row(): Account
      reads this
    {
      Account(failed, lockedUntil, active)
    }

    constructor ()
      ensures Row() == Account(0, None, true)
    {
      failed, lockedUntil, active := 0, None, true;
    }

    /** Reading the row of an account. */
    constructor Load(a: Account)
      ensures Row() == a
    {
      failed, lockedUntil, active := a.failed, a.lockedUntil, a.active;
    }

    /** `correct` is the outcome of checking the password, consulted only where the code checks it. */
    method Authenticate(c: Settings, now: real, correct: bool) returns (v: Verdict)
      modifies this
      ensures v == Disabled <==> !old(active)
      ensures v == Locked <==> old(active) && old(lockedUntil).Some? && old(lockedUntil).value > now
      ensures v == VerdictOf(old(Row()), now, correct) && Row() == Next(c, old(Row()), now, Login(correct))
    {
      if !active {
        return Disabled;
      }
      if lockedUntil.Some? && lockedUntil.value > now {
        return Locked;
      }
      if !correct {
        failed := failed + 1;
        if failed >= c.maxAttempts {
          lockedUntil := Some(now + c.lockoutSeconds);
          failed := 0;
        }
        return WrongPassword;
      }
      failed, lockedUntil := 0, None;
      return LoggedIn;
    }

    method ResetPassword()
      modifies this
      ensures Row() == old(Row()).(failed := 0, lockedUntil := None)
    {
      failed, lockedUntil := 0, None;
    }
  }

  // ---- Runs over one account ----

  datatype Step = Login(correct: bool) | Reset | SetActive(active: bool)

  datatype Event = At(time: real, step: Step)

  function VerdictOf(a: Account, now: real, correct: bool): Verdict {
    if !a.active then Disabled
    else if IsLocked(a, now) then Locked
    else if correct then LoggedIn
    else WrongPassword
  }

  function Next(c: Settings, a: Account, now: real, s: Step): Account {
    match s
    case Reset => a.(failed := 0, lockedUntil := None)
    case SetActive(active) => a.(active := active)
    case Login(correct) =>
      match VerdictOf(a, now, correct)
      case LoggedIn => a.(failed := 0, lockedUntil := None)
      case WrongPassword =>
        if a.failed + 1 >= c.maxAttempts then a.(failed := 0, lockedUntil := Some(now + c.lockoutSeconds))
        else a.(failed := a.failed + 1)
      case _ => a
  }

  function Run(c: Settings, a: Account, events: seq<Event>): Account {
    if events == [] then a
    else
      var last := events[|events| - 1];
      Next(c, Run(c, a, events[..|events| - 1]), last.time, last.step)
  }

  predicate ChecksWrong(a: Account, e: Event) {
    e.step.Login? && VerdictOf(a, e.time, e.step.correct) == WrongPassword
  }

  /** How many wrong passwords were checked against the account. */
  function WrongChecks(c: Settings, a: Account, events: seq<Event>): nat {
    if events == [] then 0
    else
      var front, last := events[..|events| - 1], events[|events| - 1];
      WrongChecks(c, a, front) + if ChecksWrong(Run(c, a, front), last) then 1 else 0
  }

  /** A successful login or a password reset: what clears the counter and the lock. */
  predicate Clears(a: Account, e: Event) {
    e.step.Reset? || (e.step.Login? && VerdictOf(a, e.time, e.step.correct) == LoggedIn)
  }

  ghost predicate NothingClears(c: Settings, a: Account, events: seq<Event>) {
    forall n :: 0 <= n < |events| ==> !Clears(Run(c, a, events[..n]), events[n])
  }

  predicate InWindow(events: seq<Event>, start: real, length: real) {
    forall i :: 0 <= i < |events| ==> start <= events[i].time < start + length
  }

  /** A reachable counter stays below the limit. */
  predicate Reachable(c: Settings, a: Account) {
    0 <= a.failed < Limit(c)
  }

  lemma {:induction false} CounterBounded(c: Settings, events: seq<Event>)
    ensures Reachable(c, Run(c, Account(0, None, true), events))
  {
    if events != [] {
      CounterBounded(c, events[..|events| - 1]);
    }
  }

  /** Inside a window either every wrong password checked so far is in the counter, or the account was locked beyond its end. */
  lemma {:induction false} WindowCounts(c: Settings, a: Account, events: seq<Event>, start: real)
    requires Reachable(c, a) && InWindow(events, start, c.lockoutSeconds) && NothingClears(c, a, events)
    ensures var b, n := Run(c, a, events), WrongChecks(c, a, events);
      && Reachable(c, b)
      && (b.failed == a.failed + n
          || (n <= Limit(c) && b.lockedUntil.Some? && b.lockedUntil.value >= start + c.lockoutSeconds))
  {
    if events != [] {
      var last := |events| - 1;
      var front := events[..last];
      assert NothingClears(c, a, front) by {
        assert forall n :: 0 <= n < last ==> front[..n] == events[..n];
      }
      WindowCounts(c, a, front, start);
      assert !Clears(Run(c, a, events[..last]), events[last]);
    }
  }

  /** In any window as long as the lockout, without a successful login or reset, at most `maxAttempts` wrong passwords
      are checked against an account - whatever happened before. */
  lemma AtMostLimitWrong(c: Settings, before: seq<Event>, window: seq<Event>, start: real)
    requires InWindow(window, start, c.lockoutSeconds)
    requires NothingClears(c, Run(c, Account(0, None, true), before), window)
    ensures WrongChecks(c, Run(c, Account(0, None, true), before), window) <= if c.maxAttempts >= 1 then c.maxAttempts else 1
  {
    CounterBounded(c, before);
    WindowCounts(c, Run(c, Account(0, None, true), before), window, start);
  }

  /** While an account is locked every attempt is refused unchecked, even with the right password. */
  lemma {:induction false} LockHolds(c: Settings, a: Account, events: seq<Event>, until: real)
    requires a.lockedUntil == Some(until) && a.active
    requires forall i :: 0 <= i < |events| ==> events[i].time < until && events[i].step.Login?
    ensures Run(c, a, events) == a && WrongChecks(c, a, events) == 0
  {
    if events != [] {
      LockHolds(c, a, events[..|events| - 1], until);
    }
  }
}
