/** When a login attempt is refused, read off the attempts that came before it (server/app/services/auth_service.py:164-192). */
module LockoutHistory {
  import opened Text
  import opened Lockout

  // ---- What the first n events of an account amount to ----

  predicate ActiveAt(events: seq<Event>, n: nat)
    requires n <= |events|
  {
    if n == 0 then true else if events[n - 1].step.SetActive? then events[n - 1].step.active else ActiveAt(events, n - 1)
  }

  /** Event `n` is an attempt whose password is checked and wrong. */
  ghost predicate Wrong(c: Settings, events: seq<Event>, n: nat)
    requires n < |events|
    decreases n, 2
  {
    events[n].step == Login(false) && ActiveAt(events, n) && !LockedOut(c, events, n, events[n].time)
  }

  /** Event `n` is a success or a reset. */
  ghost predicate Cleared(c: Settings, events: seq<Event>, n: nat)
    requires n < |events|
    decreases n, 2
  {
    || events[n].step == Reset
    || (events[n].step == Login(true) && ActiveAt(events, n) && !LockedOut(c, events, n, events[n].time))
  }

  /** The wrong passwords checked since the last success, reset or maximum. */
  ghost function Streak(c: Settings, events: seq<Event>, n: nat): nat
    requires n <= |events|
    decreases n, 0
  {
    if n == 0 || Cleared(c, events, n - 1) || MaxReached(c, events, n - 1) then 0
    else Streak(c, events, n - 1) + if Wrong(c, events, n - 1) then 1 else 0
  }

  /** Event `n` is the wrong password that reaches the maximum. */
  ghost predicate MaxReached(c: Settings, events: seq<Event>, n: nat)
    requires n < |events|
    decreases n, 3
  {
    Wrong(c, events, n) && Streak(c, events, n) + 1 >= c.maxAttempts
  }

  /** Event `m` is the last one that reached the maximum, and no success or reset has come since. */
  ghost predicate Stands(c: Settings, events: seq<Event>, n: nat, m: nat)
    requires n <= |events|
    decreases n, 0
  {
    m < n && MaxReached(c, events, m) && forall i :: m < i < n ==> !MaxReached(c, events, i) && !Cleared(c, events, i)
  }

  /** That was less than `lockoutSeconds` ago. */
  ghost predicate LockedOut(c: Settings, events: seq<Event>, n: nat, now: real)
    requires n <= |events|
    decreases n, 1
  {
    exists m: nat :: Stands(c, events, n, m) && now - events[m].time < c.lockoutSeconds
  }

  // ---- The fields of the account say the same ----

  const NEW := Account(0, None, true)

  ghost predicate LockShown(c: Settings, events: seq<Event>, n: nat, lockedUntil: Option<real>)
    requires n <= |events|
  {
    && (lockedUntil.Some? ==> exists m: nat :: Stands(c, events, n, m))
    && (forall m: nat :: Stands(c, events, n, m) ==> lockedUntil == Some(events[m].time + c.lockoutSeconds))
  }

  ghost predicate Shown(c: Settings, events: seq<Event>, n: nat, a: Account)
    requires n <= |events|
  {
    a.active == ActiveAt(events, n) && a.failed == Streak(c, events, n) && LockShown(c, events, n, a.lockedUntil)
  }

  lemma LockRead(c: Settings, events: seq<Event>, n: nat, a: Account, now: real)
    requires n <= |events| && LockShown(c, events, n, a.lockedUntil)
    ensures IsLocked(a, now) <==> LockedOut(c, events, n, now)
  {
    if IsLocked(a, now) {
      var m: nat :| Stands(c, events, n, m);
    }
  }

  /** An event that is neither leaves the last maximum where it is. */
  lemma StandsOn(c: Settings, events: seq<Event>, n: nat, lockedUntil: Option<real>)
    requires n < |events| && LockShown(c, events, n, lockedUntil)
    requires !MaxReached(c, events, n) && !Cleared(c, events, n)
    ensures LockShown(c, events, n + 1, lockedUntil)
  {
    forall m: nat
      ensures Stands(c, events, n + 1, m) <==> Stands(c, events, n, m)
    {
    }
    if lockedUntil.Some? {
      var m: nat :| Stands(c, events, n, m);
      assert Stands(c, events, n + 1, m);
    }
  }

  lemma LockShownNext(c: Settings, events: seq<Event>, n: nat, lockedUntil: Option<real>)
    requires n < |events| && LockShown(c, events, n, lockedUntil)
    ensures LockShown(c, events, n + 1,
      if MaxReached(c, events, n) then Some(events[n].time + c.lockoutSeconds) else if Cleared(c, events, n) then None else lockedUntil)
  {
    if MaxReached(c, events, n) {
      assert Stands(c, events, n + 1, n);
    } else if !Cleared(c, events, n) {
      StandsOn(c, events, n, lockedUntil);
    }
  }

  lemma ShownNext(c: Settings, events: seq<Event>, n: nat, a: Account)
    requires n < |events| && Shown(c, events, n, a)
    ensures Shown(c, events, n + 1, Next(c, a, events[n].time, events[n].step))
  {
    LockRead(c, events, n, a, events[n].time);
    LockShownNext(c, events, n, a.lockedUntil);
    assert MaxReached(c, events, n) ==> Wrong(c, events, n);
  }

  lemma {:induction false} HistoryShown(c: Settings, events: seq<Event>, n: nat)
    requires n <= |events|
    ensures Shown(c, events, n, Run(c, NEW, events[..n]))
  {
    if n > 0 {
      HistoryShown(c, events, n - 1);
      assert events[..n][..n - 1] == events[..n - 1];
      ShownNext(c, events, n - 1, Run(c, NEW, events[..n - 1]));
    }
  }

  // ---- The verdicts ----

  /** After any events an attempt on an active account is refused as locked exactly when the last wrong password that reached
      the maximum was checked less than `lockoutSeconds` ago and no success or reset has come since. Otherwise the password
      decides. */
  lemma VerdictsExactly(c: Settings, events: seq<Event>, now: real, correct: bool)
    ensures var v, n := VerdictOf(Run(c, NEW, events), now, correct), |events|;
      && (v == Disabled <==> !ActiveAt(events, n))
      && (v == Locked <==> ActiveAt(events, n) && LockedOut(c, events, n, now))
      && (v == LoggedIn <==> ActiveAt(events, n) && !LockedOut(c, events, n, now) && correct)
      && (v == WrongPassword <==> ActiveAt(events, n) && !LockedOut(c, events, n, now) && !correct)
  {
    assert events[..|events|] == events;
    HistoryShown(c, events, |events|);
    LockRead(c, events, |events|, Run(c, NEW, events), now);
  }

  /** A lock ends: from `lockoutSeconds` after the maximum on the right password logs in, and until then it is refused. */
  lemma LockEnds(c: Settings, events: seq<Event>, m: nat, now: real)
    requires Stands(c, events, |events|, m) && ActiveAt(events, |events|)
    ensures VerdictOf(Run(c, NEW, events), now, true) == if now < events[m].time + c.lockoutSeconds then Locked else LoggedIn
  {
    assert events[..|events|] == events;
    HistoryShown(c, events, |events|);
  }

  /** An account with nothing counted that is not locked at these times: `maxAttempts` wrong passwords in a row are all
      checked, and the last of them locks it. */
  lemma LimitReached(c: Settings, events: seq<Event>, wrong: seq<Event>)
    requires ActiveAt(events, |events|) && Streak(c, events, |events|) == 0
    requires c.maxAttempts >= 1 && |wrong| == c.maxAttempts
    requires forall e <- wrong :: e.step == Login(false) && !LockedOut(c, events, |events|, e.time)
    ensures WrongChecks(c, Run(c, NEW, events), wrong) == c.maxAttempts
    ensures forall now, correct :: now < wrong[|wrong| - 1].time + c.lockoutSeconds ==>
      VerdictOf(Run(c, Run(c, NEW, events), wrong), now, correct) == Locked
  {
    assert events[..|events|] == events;
    HistoryShown(c, events, |events|);
    var a, last := Run(c, NEW, events), |wrong| - 1;
    forall e <- wrong
      ensures !IsLocked(a, e.time)
    {
      LockRead(c, events, |events|, a, e.time);
    }
    CountsUp(c, a, wrong[..last]);
    assert wrong[last] in wrong;
  }

  lemma {:induction false} CountsUp(c: Settings, a: Account, wrong: seq<Event>)
    requires a.active && a.failed == 0 && |wrong| < c.maxAttempts
    requires forall e <- wrong :: e.step == Login(false) && !IsLocked(a, e.time)
    ensures Run(c, a, wrong) == a.(failed := |wrong|) && WrongChecks(c, a, wrong) == |wrong|
  {
    if wrong != [] {
      var last := |wrong| - 1;
      CountsUp(c, a, wrong[..last]);
      assert wrong[last] in wrong;
    }
  }

  /** A success or a reset clears the account: nothing is counted, and it is not locked at any time. */
  lemma ClearedStartsOver(c: Settings, events: seq<Event>)
    requires events != [] && Cleared(c, events, |events| - 1)
    ensures Streak(c, events, |events|) == 0 && forall now :: !LockedOut(c, events, |events|, now)
  {
    assert MaxReached(c, events, |events| - 1) ==> Wrong(c, events, |events| - 1);
    assert forall m: nat :: !Stands(c, events, |events|, m);
  }
}
