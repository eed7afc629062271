/** The two operations that span the pieces: a login attempt behind the rate limiter, and a password reset
    (server/app/services/auth_service.py:164-192, 361-374). */
module AuthService {
  import opened Text
  import opened RateLimit
  import L = Lockout
  import S = Sessions
  import T = UserTokens

  datatype LoginResult = TooManyAttempts | UnknownUser | Checked(verdict: L.Verdict)

  class Service {
    const limiter: RateLimiter
    const settings: L.Settings
    var accounts: map<string, L.Account>
    const sessions: S.SessionStore
    const tokens: T.TokenStore

    constructor (limiter: RateLimiter, settings: L.Settings, accounts: map<string, L.Account>, sessions: S.SessionStore,
                 tokens: T.TokenStore)
      ensures this.limiter == limiter && this.settings == settings && this.accounts == accounts
      ensures this.sessions == sessions && this.tokens == tokens
    {
      this.limiter, this.settings, this.accounts, this.sessions, this.tokens := limiter, settings, accounts, sessions, tokens;
    }

    /** The key is the client's address, or the e-mail as typed if there is none. A limited attempt touches no account. */
    method Authenticate(clientKey: string, email: string, now: real, correct: bool) returns (r: LoginResult)
      modifies this`accounts, limiter`attempts
      ensures var key := if clientKey == "" then email else clientKey;
        var dq := old(limiter.Deque(if clientKey == "" then email else clientKey));
        && (r == TooManyAttempts <==> Full(dq, now, limiter.window, limiter.limit))
        && limiter.Deque(key) == DequeAfter(dq, now, limiter.window, limiter.limit)
        && forall k :: k != key ==> limiter.Deque(k) == old(limiter.Deque(k))
      ensures var user := Lower(Strip(email));
        && (r == UnknownUser ==> user !in old(accounts))
        && (!r.Checked? ==> accounts == old(accounts))
        && (r.Checked? ==>
              && user in old(accounts) && r.verdict == L.VerdictOf(old(accounts)[user], now, correct)
              && accounts == old(accounts)[user := L.Next(settings, old(accounts)[user], now, L.Login(correct))])
    {
      var key := if clientKey != "" then clientKey else email;
      var limited := limiter.RateLimited(key, now);
      if limited {
        return TooManyAttempts;
      }
      var user := Lower(Strip(email));
      if user !in accounts {
        return UnknownUser;
      }
      var row := new L.User.Load(accounts[user]);
      var verdict := row.Authenticate(settings, now, correct);
      accounts := accounts[user := row.Row()];
      return Checked(verdict);
    }

    /** `valid` says whether the new password meets the policy, which is checked before the token is looked at. The token of a
        user who is gone is refused. */
    method ResetPassword(hash: string, valid: bool, now: real) returns (ok: bool)
      modifies this`accounts, sessions, tokens
      ensures var user := T.Owner(old(tokens.rows), hash, "password_reset");
        && (ok <==> valid && T.Accepts(old(tokens.rows), hash, "password_reset", now) && user in old(accounts))
        && (ok ==>
              && tokens.rows == T.Use(old(tokens.rows), T.FirstMatch(old(tokens.rows), hash, "password_reset"))
              && accounts == old(accounts)[user := old(accounts)[user].(failed := 0, lockedUntil := None)]
              && sessions.rows == S.RevokeUser(old(sessions.rows), user))
      ensures !ok ==> accounts == old(accounts) && sessions.rows == old(sessions.rows) && tokens.rows == old(tokens.rows)
      ensures sessions.active == old(sessions.active)
    {
      if !valid {
        return false;
      }
      var user := tokens.ConsumeToken(hash, RESET, now, accounts.Keys, true);
      if user.None? {
        return false;
      }
      var row := new L.User.Load(accounts[user.value]);
      row.ResetPassword();
      accounts := accounts[user.value := row.Row()];
      sessions.RevokeAll(user.value);
      return true;
    }
  }

  const RESET := "password_reset"

  /** A successful reset, after any history of sessions and tokens, and whatever happens next to both: the account is not
      locked, the link is never accepted again, and no session the user held is ever continued. */
  method ResetEndsEverything(svc: Service, hash: string, valid: bool, now: real, ghost tokenSteps: seq<T.Step>,
                             ghost laterTokens: seq<T.Step>, ghost steps: seq<S.Step>, ghost later: seq<S.Step>) returns (ok: bool)
    requires svc.sessions.rows == S.Run(S.Initial(), steps).rows
    requires svc.tokens.rows == T.Run(T.State([], []), tokenSteps).rows
    modifies svc`accounts, svc.sessions, svc.tokens
    ensures ok ==> var user := T.Owner(old(svc.tokens.rows), hash, RESET);
      && user in svc.accounts && svc.accounts[user].failed == 0 && svc.accounts[user].lockedUntil == None
      && LinkEnds(T.Next(T.Run(T.State([], []), tokenSteps), T.Consume(hash, RESET, now, true)), svc.tokens.rows, hash, laterTokens)
      && SessionsEnd(S.Next(S.Run(S.Initial(), steps), S.ResetPassword(user)), svc.sessions.rows, user, later)
  {
    ghost var user := T.Owner(svc.tokens.rows, hash, RESET);
    T.RunKeeps(tokenSteps);
    ok := svc.ResetPassword(hash, valid, now);
    if ok {
      LinkIsSpent(T.Run(T.State([], []), tokenSteps), hash, now, laterTokens);
      SessionsAreOver(steps, user, later);
    }
  }

  /** From the state `s` with these rows on: no step accepts the token. */
  ghost predicate LinkEnds(s: T.State, rows: seq<T.Row>, hash: string, later: seq<T.Step>) {
    && s.rows == rows && s.accepted <= T.Run(s, later).accepted && hash !in T.Run(s, later).accepted[|s.accepted|..]
    && forall purpose, t :: !T.Accepts(T.Run(s, later).rows, hash, purpose, t)
  }

  /** From the state `s` with these rows on: no step exchanges a token of the user. */
  ghost predicate SessionsEnd(s: S.State, rows: map<S.Jti, S.Row>, user: S.UserId, later: seq<S.Step>) {
    && s.rows == rows && s.exchanged <= S.Run(s, later).exchanged
    && forall jti :: jti in s.rows && s.rows[jti].user == user ==> jti !in S.Run(s, later).exchanged[|s.exchanged|..]
  }

  lemma LinkIsSpent(r: T.State, hash: string, now: real, later: seq<T.Step>)
    requires T.Inv(r) && T.Accepts(r.rows, hash, RESET, now)
    ensures var s := T.Next(r, T.Consume(hash, RESET, now, true)); LinkEnds(s, s.rows, hash, later)
  {
    var s := T.Next(r, T.Consume(hash, RESET, now, true));
    var k := T.FirstMatch(r.rows, hash, RESET);
    assert s.rows[k].hash == hash;
    T.SpentNeverAccepted(s, later, hash);
  }

  lemma SessionsAreOver(steps: seq<S.Step>, user: S.UserId, later: seq<S.Step>)
    ensures var s := S.Next(S.Run(S.Initial(), steps), S.ResetPassword(user)); SessionsEnd(s, s.rows, user, later)
  {
    var s := S.Next(S.Run(S.Initial(), steps), S.ResetPassword(user));
    S.ExchangedGrows(s, later);
    forall jti | jti in s.rows && s.rows[jti].user == user
      ensures jti !in S.Run(s, later).exchanged[|s.exchanged|..]
    {
      S.ResetEndsSessions(steps, user, later, jti);
    }
  }
}
