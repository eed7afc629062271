/** The sliding-window login limiter (server/app/services/auth_service.py:43-57). Times are seconds; the clock does not go back. */
module RateLimit {
  /** The attempts still inside the window: a deque popped from the left. */
  function Prune(q: seq<real>, now: real, window: real): seq<real> {
    if q != [] && now - q[0] > window then Prune(q[1..], now, window) else q
  }

  predicate Full(q: seq<real>, now: real, window: real, limit: nat) {
    |Prune(q, now, window)| >= limit
  }

  function DequeAfter(q: seq<real>, now: real, window: real, limit: nat): seq<real> {
    Prune(q, now, window) + if Full(q, now, window, limit) then [] else [now]
  }

  class RateLimiter {
    const window: real
    const limit: nat
    var attempts: map<string, seq<real>>

    constructor (window: real, limit: nat)
      ensures this.window == window && this.limit == limit && attempts == map[]
    {
      this.window, this.limit, attempts := window, limit, map[];
    }

    function Deque(key: string): seq<real>
      reads this`attempts
    {
      if key in attempts then attempts[key] else []
    }

    method RateLimited(key: string, now: real) returns (limited: bool)
      modifies this`attempts
      ensures limited == Full(old(Deque(key)), now, window, limit)
      ensures Deque(key) == DequeAfter(old(Deque(key)), now, window, limit)
      ensures forall k :: k != key ==> Deque(k) == old(Deque(k))
    {
      var dq := Deque(key);
      while dq != [] && now - dq[0] > window
        invariant Prune(dq, now, window) == Prune(old(Deque(key)), now, window)
        decreases |dq|
      {
        dq := dq[1..];
      }
      limited := |dq| >= limit;
      if !limited {
        dq := dq + [now];
      }
      attempts := attempts[key := dq];
    }
  }

  // ---- Runs over one key ----

  /** The deque and, as history, all accepted attempts. */
  datatype State = State(deque: seq<real>, accepted: seq<real>)

  function Attempt(s: State, now: real, window: real, limit: nat): State {
    State(DequeAfter(s.deque, now, window, limit), s.accepted + if Full(s.deque, now, window, limit) then [] else [now])
  }

  function Run(times: seq<real>, window: real, limit: nat): State {
    if times == [] then State([], [])
    else Attempt(Run(times[..|times| - 1], window, limit), times[|times| - 1], window, limit)
  }

  predicate Monotone(times: seq<real>) {
    forall i, j :: 0 <= i <= j < |times| ==> times[i] <= times[j]
  }

  /** No `limit + 1` accepted attempts fit into one window. */
  predicate Spread(accepted: seq<real>, window: real, limit: nat) {
    forall i :: 0 <= i && i + limit < |accepted| ==> accepted[i + limit] - accepted[i] > window
  }

  /** At time `now` the deque is the suffix of the accepted attempts from which only outdated ones were cut. */
  predicate Inv(s: State, now: real, window: real, limit: nat) {
    && |s.deque| <= |s.accepted| && s.deque == s.accepted[|s.accepted| - |s.deque|..] && |s.deque| <= limit
    && (forall i :: 0 <= i < |s.accepted| - |s.deque| ==> now - s.accepted[i] > window)
    && (forall i :: 0 <= i < |s.accepted| ==> s.accepted[i] <= now)
    && Monotone(s.accepted) && Spread(s.accepted, window, limit)
  }

  /** Pruning cuts a prefix of outdated attempts, and of a sorted deque all of them. */
  lemma {:induction false} PruneCuts(q: seq<real>, now: real, window: real)
    requires Monotone(q)
    ensures var p := Prune(q, now, window); |p| <= |q| && p == q[|q| - |p|..]
    ensures var p := Prune(q, now, window); forall i :: 0 <= i < |q| - |p| ==> now - q[i] > window
    ensures var p := Prune(q, now, window); forall i :: 0 <= i < |p| ==> now - p[i] <= window
  {
    if q != [] && now - q[0] > window {
      PruneCuts(q[1..], now, window);
      var p := Prune(q, now, window);
      assert forall i :: 1 <= i < |q| ==> q[i] == q[1..][i - 1];
    }
  }

  lemma DequeSorted(s: State, now: real, window: real, limit: nat)
    requires Inv(s, now, window, limit)
    ensures Monotone(s.deque)
  {
    var cut := |s.accepted| - |s.deque|;
    assert forall i :: 0 <= i < |s.deque| ==> s.deque[i] == s.accepted[cut + i];
  }

  lemma AttemptPrunes(s: State, before: real, now: real, window: real, limit: nat)
    requires Inv(s, before, window, limit) && before <= now
    ensures Inv(s.(deque := Prune(s.deque, now, window)), now, window, limit)
  {
    DequeSorted(s, before, window, limit);
    PruneCuts(s.deque, now, window);
    var cut := |s.accepted| - |s.deque|;
    assert forall i :: 0 <= i < |s.deque| ==> s.deque[i] == s.accepted[cut + i];
  }

  lemma AcceptKeeps(s: State, now: real, window: real, limit: nat)
    requires Inv(s, now, window, limit) && |s.deque| < limit
    ensures Inv(State(s.deque + [now], s.accepted + [now]), now, window, limit)
  {
    var h := s.accepted + [now];
    assert forall i :: 0 <= i < |s.accepted| ==> h[i] == s.accepted[i];
    forall i | 0 <= i && i + limit < |h|
      ensures h[i + limit] - h[i] > window
    {
      if i + limit == |s.accepted| {
        assert i < |s.accepted| - |s.deque|;
      }
    }
  }

  lemma AttemptKeeps(s: State, before: real, now: real, window: real, limit: nat)
    requires Inv(s, before, window, limit) && before <= now
    ensures Inv(Attempt(s, now, window, limit), now, window, limit)
  {
    var pruned := s.(deque := Prune(s.deque, now, window));
    AttemptPrunes(s, before, now, window, limit);
    if Full(s.deque, now, window, limit) {
      assert Attempt(s, now, window, limit) == pruned;
    } else {
      AcceptKeeps(pruned, now, window, limit);
    }
  }

  lemma {:induction false} RunKeeps(times: seq<real>, window: real, limit: nat)
    requires Monotone(times) && times != []
    ensures Inv(Run(times, window, limit), times[|times| - 1], window, limit)
  {
    var last := |times| - 1;
    if last > 0 {
      RunKeeps(times[..last], window, limit);
    }
    AttemptKeeps(Run(times[..last], window, limit), if last > 0 then times[last - 1] else times[0], times[last], window, limit);
  }

  ghost function Within(accepted: seq<real>, lo: real, hi: real): set<nat> {
    set i: nat | i < |accepted| && lo <= accepted[i] <= hi
  }

  lemma {:induction false} SetInRange(s: set<nat>, lo: nat, n: nat)
    requires forall i :: i in s ==> lo <= i < lo + n
    ensures |s| <= n
  {
    if n == 0 {
      assert s == {};
    } else {
      SetInRange(s - {lo + n - 1}, lo, n - 1);
    }
  }

  /** In every closed interval as long as the window, at most `limit` attempts are accepted. */
  lemma AtMostLimitPerWindow(times: seq<real>, window: real, limit: nat, start: real)
    requires Monotone(times) && window >= 0.0
    ensures |Within(Run(times, window, limit).accepted, start, start + window)| <= limit
  {
    var h := Run(times, window, limit).accepted;
    if times != [] {
      RunKeeps(times, window, limit);
      SpreadWindow(h, window, limit, start);
    }
  }

  lemma SpreadWindow(h: seq<real>, window: real, limit: nat, start: real)
    requires Monotone(h) && Spread(h, window, limit) && window >= 0.0
    ensures |Within(h, start, start + window)| <= limit
  {
    var first := FirstFrom(h, start);
    forall i | first + limit <= i < |h|
      ensures h[i] > start + window
    {
      assert h[first + limit] - h[first] > window && h[first + limit] <= h[i];
    }
    SetInRange(Within(h, start, start + window), first, limit);
  }

  /** The number of attempts before `start`. */
  function FirstFrom(h: seq<real>, start: real): (n: nat)
    ensures n <= |h| && (forall i :: 0 <= i < n ==> h[i] < start) && (n < |h| ==> h[n] >= start)
  {
    if h == [] || h[0] >= start then 0 else 1 + FirstFrom(h[1..], start)
  }

  lemma SuffixIsWindow(h: seq<real>, p: seq<real>, now: real, window: real)
    requires |p| <= |h| && p == h[|h| - |p|..]
    requires (forall i :: 0 <= i < |h| - |p| ==> now - h[i] > window) && (forall i :: 0 <= i < |p| ==> now - p[i] <= window)
    requires forall i :: 0 <= i < |h| ==> h[i] <= now
    ensures |Within(h, now - window, now)| == |p|
  {
    var from := |h| - |p|;
    forall i | from <= i < |h|
      ensures now - window <= h[i]
    {
      assert h[i] == p[i - from];
    }
    SuffixSize(Within(h, now - window, now), from, |h|);
  }

  lemma PrunedIsWindow(s: State, before: real, now: real, window: real, limit: nat)
    requires Inv(s, before, window, limit) && before <= now
    ensures |Prune(s.deque, now, window)| == |Within(s.accepted, now - window, now)|
  {
    AttemptPrunes(s, before, now, window, limit);
    var p := PruneRecent(s, before, now, window, limit);
    InvIsWindow(State(p, s.accepted), now, window, limit);
  }

  lemma PruneRecent(s: State, before: real, now: real, window: real, limit: nat) returns (p: seq<real>)
    requires Inv(s, before, window, limit)
    ensures p == Prune(s.deque, now, window) && forall i :: 0 <= i < |p| ==> now - p[i] <= window
  {
    p := Prune(s.deque, now, window);
    DequeSorted(s, before, window, limit);
    PruneCuts(s.deque, now, window);
  }

  lemma InvIsWindow(s: State, now: real, window: real, limit: nat)
    requires Inv(s, now, window, limit) && forall i :: 0 <= i < |s.deque| ==> now - s.deque[i] <= window
    ensures |Within(s.accepted, now - window, now)| == |s.deque|
  {
    SuffixIsWindow(s.accepted, s.deque, now, window);
  }

  /** An attempt is rejected exactly when `limit` attempts were accepted in the window that ends now; and the deque it is
      checked against holds exactly those. */
  lemma RejectedExactly(times: seq<real>, now: real, window: real, limit: nat)
    requires Monotone(times) && (times != [] ==> times[|times| - 1] <= now)
    ensures var s := Run(times, window, limit);
      && |Prune(s.deque, now, window)| == |Within(s.accepted, now - window, now)|
      && (Full(s.deque, now, window, limit) <==> |Within(s.accepted, now - window, now)| >= limit)
  {
    if times != [] {
      RunKeeps(times, window, limit);
      PrunedIsWindow(Run(times, window, limit), times[|times| - 1], now, window, limit);
    } else {
      assert Within([], now - window, now) == {};
    }
  }

  lemma {:induction false} SuffixSize(s: set<nat>, from: nat, end: nat)
    requires from <= end && forall i :: i in s <==> from <= i < end
    ensures |s| == end - from
    decreases end
  {
    if from == end {
      assert s == {};
    } else {
      SuffixSize(s - {end - 1}, from, end - 1);
    }
  }
}
