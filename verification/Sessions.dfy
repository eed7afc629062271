/** Refresh-token sessions: issue, rotate, revoke, revoke-all on password reset
    (server/app/services/auth_service.py:255-299, 361-374). Token ids are fresh; transactions are serial. */
module Sessions {
  import opened Text

  type Jti = string
  type UserId = string

  datatype Row = Row(user: UserId, expires: real, revoked: bool)

  datatype Refreshed = Issued(jti: Jti) | Unauthorized

  class SessionStore {
    var rows: map<Jti, Row>
    var active: map<UserId, bool>

    constructor (active: map<UserId, bool>)
      ensures rows == map[] && this.active == active
    {
      rows, this.active := map[], active;
    }

    method IssueTokens(user: UserId, jti: Jti, expires: real)
      requires jti !in rows
      modifies this`rows
      ensures rows == old(rows)[jti := Row(user, expires, false)]
    {
      rows := rows[jti := Row(user, expires, false)];
    }

    /** `token` is the id in a decoded refresh token, none if the token does not decode. */
    method RefreshTokens(token: Option<Jti>, now: real, newJti: Jti, expires: real) returns (r: Refreshed)
      requires newJti !in rows
      modifies this`rows
      ensures r == (if token.Some? && Exchangeable(old(rows), active, token.value, now) then Issued(newJti) else Unauthorized)
      ensures r.Unauthorized? ==> rows == old(rows)
      ensures r.Issued? ==> rows == Revoke(old(rows), token.value)[newJti := Row(old(rows)[token.value].user, expires, false)]
    {
      if token.None? || token.value !in rows || rows[token.value].revoked {
        return Unauthorized;
      }
      var jti, record := token.value, rows[token.value];
      if record.expires <= now {
        return Unauthorized;
      }
      if record.user !in active || !active[record.user] {
        return Unauthorized;
      }
      rows := rows[jti := record.(revoked := true)];
      IssueTokens(record.user, newJti, expires);
      return Issued(newJti);
    }

    method RevokeRefreshToken(token: Option<Jti>)
      modifies this`rows
      ensures rows == if token.Some? && token.value in old(rows) then Revoke(old(rows), token.value) else old(rows)
    {
      if token.Some? && token.value in rows && !rows[token.value].revoked {
        rows := rows[token.value := rows[token.value].(revoked := true)];
      }
    }

    /** The loop of a password reset over the user's open sessions. */
    method RevokeAll(user: UserId)
      modifies this`rows
      ensures rows == RevokeUser(old(rows), user)
    {
      var todo := set j | j in rows && rows[j].user == user && !rows[j].revoked;
      while todo != {}
        invariant todo <= rows.Keys == old(rows).Keys
        invariant forall j :: j in rows ==>
          rows[j] == if j !in todo && old(rows)[j].user == user then old(rows)[j].(revoked := true) else old(rows)[j]
        invariant forall j :: j in todo ==> old(rows)[j].user == user
        decreases |todo|
      {
        var j :| j in todo;
        rows := rows[j := rows[j].(revoked := true)];
        todo := todo - {j};
      }
    }
  }

  predicate Exchangeable(rows: map<Jti, Row>, active: map<UserId, bool>, jti: Jti, now: real) {
    && jti in rows && !rows[jti].revoked && rows[jti].expires > now
    && rows[jti].user in active && active[rows[jti].user]
  }

  function Revoke(rows: map<Jti, Row>, jti: Jti): map<Jti, Row>
    requires jti in rows
  {
    rows[jti := rows[jti].(revoked := true)]
  }

  function RevokeUser(rows: map<Jti, Row>, user: UserId): map<Jti, Row> {
    map j | j in rows :: if rows[j].user == user then rows[j].(revoked := true) else rows[j]
  }

  // ---- Runs ----

  /** `login` says from which login each token descends; `exchanged` lists the successful exchanges. */
  datatype State = State(rows: map<Jti, Row>, active: map<UserId, bool>, login: map<Jti, nat>, logins: nat, exchanged: seq<Jti>)

  datatype Step =
    | Login(user: UserId, newJti: Jti, expires: real)
    | Refresh(jti: Jti, now: real, newJti: Jti, expires: real)
    | Logout(jti: Jti)
    | ResetPassword(user: UserId)
    | SetActive(user: UserId, active: bool)

  function Initial(): State {
    State(map[], map[], map[], 0, [])
  }

  function Next(s: State, step: Step): State {
    match step
    case Login(user, newJti, expires) =>
      if newJti in s.rows then s
      else s.(rows := s.rows[newJti := Row(user, expires, false)], login := s.login[newJti := s.logins], logins := s.logins + 1)
    case Refresh(jti, now, newJti, expires) =>
      if newJti in s.rows || jti !in s.login || !Exchangeable(s.rows, s.active, jti, now) then s
      else s.(rows := Revoke(s.rows, jti)[newJti := Row(s.rows[jti].user, expires, false)],
              login := s.login[newJti := s.login[jti]], exchanged := s.exchanged + [jti])
    case Logout(jti) => if jti in s.rows then s.(rows := Revoke(s.rows, jti)) else s
    case ResetPassword(user) => s.(rows := RevokeUser(s.rows, user))
    case SetActive(user, active) => s.(active := s.active[user := active])
  }

  function Run(s: State, steps: seq<Step>): State {
    if steps == [] then s else Next(Run(s, steps[..|steps| - 1]), steps[|steps| - 1])
  }

  predicate Open(s: State, jti: Jti) {
    jti in s.rows && !s.rows[jti].revoked
  }

  /** Exactly the recorded tokens descend from a login, an earlier one. */
  ghost predicate LoginsOk(s: State) {
    s.login.Keys == s.rows.Keys && forall j :: j in s.login ==> s.login[j] < s.logins
  }

  /** A login has at most one open token. */
  ghost predicate OneOpen(s: State)
    requires LoginsOk(s)
  {
    forall i, j :: Open(s, i) && Open(s, j) && s.login[i] == s.login[j] ==> i == j
  }

  /** What was exchanged is revoked, and was exchanged once. */
  ghost predicate ExchangedOk(s: State) {
    && (forall j :: j in s.exchanged ==> j in s.rows && s.rows[j].revoked)
    && (forall m, n :: 0 <= m < n < |s.exchanged| ==> s.exchanged[m] != s.exchanged[n])
  }

  ghost predicate Inv(s: State) {
    LoginsOk(s) && OneOpen(s) && ExchangedOk(s)
  }

  predicate Exchanges(s: State, step: Step) {
    step.Refresh? && step.newJti !in s.rows && step.jti in s.login && Exchangeable(s.rows, s.active, step.jti, step.now)
  }

  predicate LogsIn(s: State, step: Step) {
    step.Login? && step.newJti !in s.rows
  }

  /** Where an open token comes from: it was open before, was issued to a new login, or took the place of an open token,
      which is closed. */
  lemma OpenAfter(s: State, step: Step, j: Jti)
    requires LoginsOk(s)
    ensures LoginsOk(Next(s, step))
    ensures var t := Next(s, step); Open(t, j) ==>
      || (Open(s, j) && t.login[j] == s.login[j] && !(Exchanges(s, step) && j == step.jti))
      || (LogsIn(s, step) && j == step.newJti && t.login[j] == s.logins)
      || (Exchanges(s, step) && j == step.newJti && Open(s, step.jti) && t.login[j] == s.login[step.jti])
  {
  }

  lemma ExchangedAfter(s: State, step: Step)
    requires Inv(s)
    ensures ExchangedOk(Next(s, step))
  {
    if Exchanges(s, step) {
      assert step.jti !in s.exchanged;
    }
  }

  lemma NextKeeps(s: State, step: Step)
    requires Inv(s)
    ensures Inv(Next(s, step))
  {
    ExchangedAfter(s, step);
    OpenAfter(s, step, "");
    var t := Next(s, step);
    forall i, j | Open(t, i) && Open(t, j) && t.login[i] == t.login[j]
      ensures i == j
    {
      OpenAfter(s, step, i);
      OpenAfter(s, step, j);
    }
  }

  lemma {:induction false} RunKeeps(steps: seq<Step>)
    ensures Inv(Run(Initial(), steps))
  {
    if steps != [] {
      RunKeeps(steps[..|steps| - 1]);
      NextKeeps(Run(Initial(), steps[..|steps| - 1]), steps[|steps| - 1]);
    }
  }

  /** In every run: each refresh token is exchanged at most once, and each login has at most one open token. */
  lemma SingleUse(steps: seq<Step>)
    ensures var s := Run(Initial(), steps);
      && (forall m, n :: 0 <= m < n < |s.exchanged| ==> s.exchanged[m] != s.exchanged[n])
      && LoginsOk(s)
      && (forall i, j :: Open(s, i) && Open(s, j) && s.login[i] == s.login[j] ==> i == j)
  {
    RunKeeps(steps);
  }

  /** A token on record that is not open is never exchanged again, in any continuation. */
  lemma {:induction false} ClosedStaysClosed(s: State, steps: seq<Step>, jti: Jti)
    requires jti in s.rows && s.rows[jti].revoked
    ensures jti in Run(s, steps).rows && Run(s, steps).rows[jti].revoked
    ensures s.exchanged <= Run(s, steps).exchanged && jti !in Run(s, steps).exchanged[|s.exchanged|..]
  {
    if steps != [] {
      var front := steps[..|steps| - 1];
      ClosedStaysClosed(s, front, jti);
      var t, last := Run(s, front), steps[|steps| - 1];
      var u := Next(t, last);
      assert u.exchanged == t.exchanged || (last.Refresh? && u.exchanged == t.exchanged + [last.jti] && last.jti != jti);
      assert u.exchanged[|s.exchanged|..] == t.exchanged[|s.exchanged|..] + u.exchanged[|t.exchanged|..];
    }
  }

  lemma {:induction false} ExchangedGrows(s: State, steps: seq<Step>)
    ensures s.exchanged <= Run(s, steps).exchanged
  {
    if steps != [] {
      ExchangedGrows(s, steps[..|steps| - 1]);
    }
  }

  /** After a password reset no token the user held before is ever exchanged. */
  lemma ResetEndsSessions(steps: seq<Step>, user: UserId, more: seq<Step>, jti: Jti)
    requires jti in Run(Initial(), steps).rows && Run(Initial(), steps).rows[jti].user == user
    ensures var s := Next(Run(Initial(), steps), ResetPassword(user));
      s.exchanged <= Run(s, more).exchanged && jti !in Run(s, more).exchanged[|s.exchanged|..]
  {
    ClosedStaysClosed(Next(Run(Initial(), steps), ResetPassword(user)), more, jti);
  }

  /** A login whose last open token was closed - by logout, reset or otherwise - never has an open token again. */
  lemma {:induction false} DeadLoginStaysDead(s: State, steps: seq<Step>, l: nat)
    requires LoginsOk(s) && l < s.logins && forall j :: Open(s, j) ==> s.login[j] != l
    ensures var t := Run(s, steps); LoginsOk(t) && t.logins >= s.logins && forall j :: Open(t, j) ==> t.login[j] != l
  {
    if steps != [] {
      var front, last := steps[..|steps| - 1], steps[|steps| - 1];
      DeadLoginStaysDead(s, front, l);
      OpenAfter(Run(s, front), last, "");
      forall j | Open(Run(s, steps), j)
        ensures Run(s, steps).login[j] != l
      {
        OpenAfter(Run(s, front), last, j);
      }
    }
  }

  // ---- How long a token can be exchanged ----

  /** What the last word on a user's account says. */
  predicate ActiveIn(steps: seq<Step>, user: UserId) {
    if steps == [] then false
    else
      var last := steps[|steps| - 1];
      if last.SetActive? && last.user == user then last.active else ActiveIn(steps[..|steps| - 1], user)
  }

  /** A new login of the user, or an exchange of one of the user's tokens, issues `jti`. */
  predicate Issues(s: State, step: Step, user: UserId, jti: Jti, expires: real) {
    jti !in s.rows &&
      (step == Login(user, jti, expires)
       || (step.Refresh? && step.newJti == jti && step.expires == expires && Next(s, step).exchanged == s.exchanged + [step.jti]
           && step.jti in s.rows && s.rows[step.jti].user == user))
  }

  /** A logout with the token, or a password reset of the user. */
  predicate Ends(steps: seq<Step>, user: UserId, jti: Jti) {
    Logout(jti) in steps || ResetPassword(user) in steps
  }

  lemma {:induction false} ActiveShown(steps: seq<Step>, user: UserId)
    ensures var active := Run(Initial(), steps).active; (user in active && active[user]) <==> ActiveIn(steps, user)
  {
    if steps != [] {
      ActiveShown(steps[..|steps| - 1], user);
    }
  }

  ghost predicate TokenShown(s: State, user: UserId, jti: Jti, expires: real, ended: bool) {
    && LoginsOk(s) && jti in s.rows && s.rows[jti] == Row(user, expires, ended || jti in s.exchanged)
  }

  lemma TokenStep(s: State, step: Step, user: UserId, jti: Jti, expires: real, ended: bool)
    requires TokenShown(s, user, jti, expires, ended)
    ensures TokenShown(Next(s, step), user, jti, expires, ended || step == Logout(jti) || step == ResetPassword(user))
  {
    var t := Next(s, step);
    assert t.exchanged == s.exchanged || (step.Refresh? && t.exchanged == s.exchanged + [step.jti]);
  }

  lemma {:induction false} TokenHistory(s: State, steps: seq<Step>, user: UserId, jti: Jti, expires: real)
    requires TokenShown(s, user, jti, expires, false)
    ensures TokenShown(Run(s, steps), user, jti, expires, Ends(steps, user, jti))
  {
    if steps != [] {
      var front, last := steps[..|steps| - 1], steps[|steps| - 1];
      TokenHistory(s, front, user, jti, expires);
      TokenStep(Run(s, front), last, user, jti, expires, Ends(front, user, jti));
      assert steps == front + [last];
    }
  }

  lemma {:induction false} RunConcat(s: State, a: seq<Step>, b: seq<Step>)
    ensures Run(s, a + b) == Run(Run(s, a), b)
  {
    if b == [] {
      assert a + b == a;
    } else {
      assert (a + b)[..|a + b| - 1] == a + b[..|b| - 1];
      RunConcat(s, a, b[..|b| - 1]);
    }
  }

  /** A token is exchanged exactly while it has not expired and has not been exchanged before, its user is active, and there was
      no logout with it and no password reset since it was issued. */
  lemma ExchangedExactly(before: seq<Step>, issue: Step, user: UserId, jti: Jti, expires: real, since: seq<Step>, use: Step)
    requires Issues(Run(Initial(), before), issue, user, jti, expires)
    requires use.Refresh? && use.jti == jti && use.newJti !in Run(Initial(), before + [issue] + since).rows
    ensures var s := Run(Initial(), before + [issue] + since);
      Next(s, use).exchanged == s.exchanged + [jti] <==>
      use.now < expires && jti !in s.exchanged && ActiveIn(before + [issue] + since, user) && !Ends(since, user, jti)
  {
    var steps := before + [issue] + since;
    var r, s := Run(Initial(), before), Run(Initial(), steps);
    RunKeeps(before);
    assert (before + [issue])[..|before|] == before;
    RunConcat(Initial(), before + [issue], since);
    assert TokenShown(Next(r, issue), user, jti, expires, false);
    TokenHistory(Next(r, issue), since, user, jti, expires);
    ActiveShown(steps, user);
  }

  // ---- The store takes these steps ----

  predicate FreshIds(s: State, step: Step) {
    (step.Login? || step.Refresh?) ==> step.newJti !in s.rows
  }

  /** Each call on the store is a step of the runs above. */
  method TakeStep(store: SessionStore, s: State, step: Step) returns (r: Refreshed)
    requires store.rows == s.rows && store.active == s.active && LoginsOk(s) && FreshIds(s, step) && !step.SetActive?
    modifies store
    ensures store.rows == Next(s, step).rows && store.active == Next(s, step).active
    ensures step.Refresh? ==> (r.Issued? <==> Next(s, step).exchanged == s.exchanged + [step.jti])
  {
    r := Unauthorized;
    match step {
      case Login(user, newJti, expires) => store.IssueTokens(user, newJti, expires);
      case Refresh(jti, now, newJti, expires) => r := store.RefreshTokens(Some(jti), now, newJti, expires);
      case Logout(jti) => store.RevokeRefreshToken(Some(jti));
      case ResetPassword(user) => store.RevokeAll(user);
    }
  }
}
