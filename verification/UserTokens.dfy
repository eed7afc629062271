/** Single-use emailed tokens: verification, password reset, invitation
    (server/app/services/auth_service.py:148-160, 307-330, 341-374). Raw tokens are fresh and hash without collision. */
module UserTokens {
  import opened Text

  datatype Row = Row(user: string, purpose: string, hash: string, expires: real, used: bool)

  /** The rows a new token of the same user and purpose invalidates. */
  predicate Outstanding(r: Row, user: string, purpose: string) {
    r.user == user && r.purpose == purpose && !r.used
  }

  function Invalidate(rows: seq<Row>, user: string, purpose: string): (out: seq<Row>)
    ensures |out| == |rows|
  {
    seq(|rows|, i requires 0 <= i < |rows| => if Outstanding(rows[i], user, purpose) then rows[i].(used := true) else rows[i])
  }

  predicate Matches(r: Row, hash: string, purpose: string) {
    r.hash == hash && r.purpose == purpose && !r.used
  }

  /** The first unused row with the hash and purpose. */
  function FirstMatch(rows: seq<Row>, hash: string, purpose: string): (i: nat)
    ensures i <= |rows|
    ensures i < |rows| ==> Matches(rows[i], hash, purpose)
    ensures forall j :: 0 <= j < i ==> !Matches(rows[j], hash, purpose)
  {
    if rows == [] || Matches(rows[0], hash, purpose) then 0 else 1 + FirstMatch(rows[1..], hash, purpose)
  }

  predicate Accepts(rows: seq<Row>, hash: string, purpose: string, now: real) {
    var i := FirstMatch(rows, hash, purpose);
    i < |rows| && rows[i].expires > now
  }

  /** Whose token it is. */
  function Owner(rows: seq<Row>, hash: string, purpose: string): string {
    var i := FirstMatch(rows, hash, purpose);
    if i < |rows| then rows[i].user else ""
  }

  class TokenStore {
    var rows: seq<Row>

    constructor ()
      ensures rows == []
    {
      rows := [];
    }

    method IssueToken(user: string, purpose: string, hash: string, expires: real)
      modifies this
      ensures rows == Invalidate(old(rows), user, purpose) + [Row(user, purpose, hash, expires, false)]
    {
      for i := 0 to |rows|
        invariant |rows| == |old(rows)|
        invariant forall j :: 0 <= j < |rows| ==>
          rows[j] == if j < i && Outstanding(old(rows)[j], user, purpose) then old(rows)[j].(used := true) else old(rows)[j]
      {
        if rows[i].user == user && rows[i].purpose == purpose && !rows[i].used {
          rows := rows[i := rows[i].(used := true)];
        }
      }
      assert rows == Invalidate(old(rows), user, purpose);
      rows := rows + [Row(user, purpose, hash, expires, false)];
    }

    /** `users` are those on record. `commit` says whether the caller's transaction goes through: an invitation accepted with
        a refused password is rolled back, and so is the token of a user who is gone. */
    method ConsumeToken(hash: string, purpose: string, now: real, users: set<string>, commit: bool) returns (user: Option<string>)
      modifies this
      ensures user.Some? <==> Accepts(old(rows), hash, purpose, now) && Owner(old(rows), hash, purpose) in users
      ensures user.Some? ==> user.value == Owner(old(rows), hash, purpose)
      ensures rows == if user.Some? && commit then Use(old(rows), FirstMatch(old(rows), hash, purpose)) else old(rows)
    {
      var i := FirstMatch(rows, hash, purpose);
      if i == |rows| || rows[i].expires <= now || rows[i].user !in users {
        return None;
      }
      user := Some(rows[i].user);
      if commit {
        rows := rows[i := rows[i].(used := true)];
      }
    }
  }

  function Use(rows: seq<Row>, i: nat): seq<Row>
    requires i < |rows|
  {
    rows[i := rows[i].(used := true)]
  }

  // ---- Runs ----

  datatype State = State(rows: seq<Row>, accepted: seq<string>)

  datatype Step =
    | Issue(user: string, purpose: string, hash: string, expires: real)
    | Consume(hash: string, purpose: string, now: real, commit: bool)

  predicate Known(rows: seq<Row>, hash: string) {
    exists i :: 0 <= i < |rows| && rows[i].hash == hash
  }

  function Next(s: State, step: Step): State {
    match step
    case Issue(user, purpose, hash, expires) =>
      if Known(s.rows, hash) then s
      else s.(rows := Invalidate(s.rows, user, purpose) + [Row(user, purpose, hash, expires, false)])
    case Consume(hash, purpose, now, commit) =>
      if !commit || !Accepts(s.rows, hash, purpose, now) then s
      else State(Use(s.rows, FirstMatch(s.rows, hash, purpose)), s.accepted + [hash])
  }

  function Run(s: State, steps: seq<Step>): State {
    if steps == [] then s else Next(Run(s, steps[..|steps| - 1]), steps[|steps| - 1])
  }

  ghost predicate RowsOk(rows: seq<Row>) {
    && (forall i, j :: 0 <= i < j < |rows| ==> rows[i].hash != rows[j].hash)
    && (forall i, j, u, p :: 0 <= i < j < |rows| && Outstanding(rows[i], u, p) ==> !Outstanding(rows[j], u, p))
  }

  /** No unused token has the hash. */
  predicate Spent(rows: seq<Row>, hash: string) {
    forall i :: 0 <= i < |rows| && rows[i].hash == hash ==> rows[i].used
  }

  ghost predicate Inv(s: State) {
    && RowsOk(s.rows)
    && (forall h <- s.accepted :: Known(s.rows, h) && Spent(s.rows, h))
    && (forall m, n :: 0 <= m < n < |s.accepted| ==> s.accepted[m] != s.accepted[n])
  }

  lemma SpentStays(s: State, step: Step, h: string)
    requires Known(s.rows, h) && Spent(s.rows, h)
    ensures Known(Next(s, step).rows, h) && Spent(Next(s, step).rows, h)
  {
    var i :| 0 <= i < |s.rows| && s.rows[i].hash == h;
    assert Next(s, step).rows[i].hash == h;
  }

  lemma NextKeeps(s: State, step: Step)
    requires Inv(s)
    ensures Inv(Next(s, step))
  {
    var t := Next(s, step);
    forall h | h in s.accepted
      ensures Known(t.rows, h) && Spent(t.rows, h)
    {
      SpentStays(s, step, h);
    }
    match step {
      case Issue(user, purpose, hash, expires) =>
      case Consume(hash, purpose, now, commit) =>
        if commit && Accepts(s.rows, hash, purpose, now) {
          var k := FirstMatch(s.rows, hash, purpose);
          assert t.rows[k].hash == hash;
          assert hash !in s.accepted;
        }
    }
  }

  lemma {:induction false} RunKeeps(steps: seq<Step>)
    ensures Inv(Run(State([], []), steps))
  {
    if steps != [] {
      RunKeeps(steps[..|steps| - 1]);
      NextKeeps(Run(State([], []), steps[..|steps| - 1]), steps[|steps| - 1]);
    }
  }

  /** In every run each token is accepted at most once, and a user has at most one unused token for a purpose. */
  lemma AcceptedOnce(steps: seq<Step>)
    ensures var s := Run(State([], []), steps);
      && (forall m, n :: 0 <= m < n < |s.accepted| ==> s.accepted[m] != s.accepted[n])
      && (forall i, j, u, p :: 0 <= i < j < |s.rows| && Outstanding(s.rows[i], u, p) ==> !Outstanding(s.rows[j], u, p))
  {
    RunKeeps(steps);
  }

  /** A spent token is never accepted again. */
  lemma {:induction false} SpentNeverAccepted(s: State, steps: seq<Step>, h: string)
    requires Known(s.rows, h) && Spent(s.rows, h)
    ensures Known(Run(s, steps).rows, h) && Spent(Run(s, steps).rows, h)
    ensures s.accepted <= Run(s, steps).accepted && h !in Run(s, steps).accepted[|s.accepted|..]
  {
    if steps != [] {
      var front, last := steps[..|steps| - 1], steps[|steps| - 1];
      SpentNeverAccepted(s, front, h);
      var t := Run(s, front);
      SpentStays(t, last, h);
      var u := Next(t, last);
      assert u.accepted == t.accepted || (last.Consume? && u.accepted == t.accepted + [last.hash] && last.hash != h);
      assert u.accepted[|s.accepted|..] == t.accepted[|s.accepted|..] + u.accepted[|t.accepted|..];
    }
  }

  /** Issuing a token ends every earlier one of the same user and purpose: none of them is accepted afterwards. */
  lemma OlderTokensEnd(steps: seq<Step>, user: string, purpose: string, hash: string, expires: real, more: seq<Step>, i: nat)
    requires var s := Run(State([], []), steps);
      !Known(s.rows, hash) && i < |s.rows| && s.rows[i].user == user && s.rows[i].purpose == purpose
    ensures var older := Run(State([], []), steps).rows[i].hash;
      var s := Next(Run(State([], []), steps), Issue(user, purpose, hash, expires));
      s.accepted <= Run(s, more).accepted && older !in Run(s, more).accepted[|s.accepted|..]
  {
    var r := Run(State([], []), steps);
    var s := Next(r, Issue(user, purpose, hash, expires));
    RunKeeps(steps);
    assert s.rows[i].hash == r.rows[i].hash && s.rows[i].used;
    RunKeeps(steps + [Issue(user, purpose, hash, expires)]);
    assert (steps + [Issue(user, purpose, hash, expires)])[..|steps|] == steps;
    SpentNeverAccepted(s, more, r.rows[i].hash);
  }

  // ---- How long a token is accepted ----

  /** A step after the first `n` issues another token to the user for the purpose. */
  ghost predicate Replaced(s: State, steps: seq<Step>, user: string, purpose: string) {
    exists k :: 0 <= k < |steps| && steps[k].Issue? && steps[k].user == user && steps[k].purpose == purpose
      && !Known(Run(s, steps[..k]).rows, steps[k].hash)
  }

  ghost predicate TokenShown(s: State, i: nat, user: string, purpose: string, hash: string, expires: real, replaced: bool) {
    Inv(s) && i < |s.rows| && s.rows[i] == Row(user, purpose, hash, expires, replaced || hash in s.accepted)
  }

  lemma TokenStep(s: State, step: Step, i: nat, user: string, purpose: string, hash: string, expires: real, replaced: bool)
    requires TokenShown(s, i, user, purpose, hash, expires, replaced)
    ensures TokenShown(Next(s, step), i, user, purpose, hash, expires,
      replaced || (step.Issue? && step.user == user && step.purpose == purpose && !Known(s.rows, step.hash)))
  {
    NextKeeps(s, step);
    var t := Next(s, step);
    assert t.accepted == s.accepted || (step.Consume? && t.accepted == s.accepted + [step.hash]);
  }

  lemma {:induction false} TokenHistory(s: State, steps: seq<Step>, i: nat, user: string, purpose: string, hash: string, expires: real)
    requires TokenShown(s, i, user, purpose, hash, expires, false)
    ensures TokenShown(Run(s, steps), i, user, purpose, hash, expires, Replaced(s, steps, user, purpose))
  {
    if steps != [] {
      var n := |steps| - 1;
      TokenHistory(s, steps[..n], i, user, purpose, hash, expires);
      TokenStep(Run(s, steps[..n]), steps[n], i, user, purpose, hash, expires, Replaced(s, steps[..n], user, purpose));
      assert forall k :: 0 <= k < n ==> steps[..n][..k] == steps[..k];
    }
  }

  /** A token is accepted exactly for its purpose, while it has not expired, has not been accepted before, and no other token
      was issued to its user for that purpose since. */
  lemma AcceptedExactly(before: seq<Step>, user: string, purpose: string, hash: string, expires: real, since: seq<Step>,
                        asked: string, now: real)
    requires !Known(Run(State([], []), before).rows, hash)
    ensures var r := Next(Run(State([], []), before), Issue(user, purpose, hash, expires));
      var s := Run(r, since);
      Next(s, Consume(hash, asked, now, true)).accepted == s.accepted + [hash] <==>
      asked == purpose && now < expires && hash !in s.accepted && !Replaced(r, since, user, purpose)
    ensures var r := Next(Run(State([], []), before), Issue(user, purpose, hash, expires));
      Accepts(Run(r, since).rows, hash, asked, now) ==> Owner(Run(r, since).rows, hash, asked) == user
  {
    var q := Run(State([], []), before);
    var r := Next(q, Issue(user, purpose, hash, expires));
    RunKeeps(before);
    NextKeeps(q, Issue(user, purpose, hash, expires));
    var i := |q.rows|;
    assert TokenShown(r, i, user, purpose, hash, expires, false);
    TokenHistory(r, since, i, user, purpose, hash, expires);
    var s := Run(r, since);
    assert forall j :: 0 <= j < |s.rows| && j != i ==> s.rows[j].hash != hash;
  }

  // ---- The store takes these steps ----

  /** Each call on the store is a step of the runs above. */
  method TakeStep(store: TokenStore, users: set<string>, s: State, step: Step) returns (user: Option<string>)
    requires store.rows == s.rows && (step.Issue? ==> !Known(s.rows, step.hash))
    requires step.Consume? && step.commit && Accepts(s.rows, step.hash, step.purpose, step.now) ==>
      Owner(s.rows, step.hash, step.purpose) in users
    modifies store
    ensures store.rows == Next(s, step).rows
    ensures step.Consume? && step.commit ==> Next(s, step).accepted == s.accepted + if user.Some? then [step.hash] else []
  {
    user := None;
    match step {
      case Issue(u, purpose, hash, expires) => store.IssueToken(u, purpose, hash, expires);
      case Consume(hash, purpose, now, commit) => user := store.ConsumeToken(hash, purpose, now, users, commit);
    }
  }
}
