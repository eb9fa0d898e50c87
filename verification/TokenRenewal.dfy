/**
 The token renewal loop over time. Times are milliseconds; each iteration samples the
 clock, then runs the full authentication, or refreshes the access token, or sleeps.
 */
module TokenRenewal {
  import opened Options

  /** Both tokens are renewed once they have less than this left. */
  const RENEW_BELOW: nat := 300_000

  const SLEEP: nat := 5_000

  datatype Token = Token(value: string, expires: nat)

  /** The answer to a renewal request, and how long it took: new tokens, or None for an error. */
  datatype Reply = Reply(duration: nat, access: Option<Token>, refresh: Token)

  /** The loop's variables at the top of an iteration, and when the renewal under way began. */
  datatype State = State(now: nat, refresh: Token, accessExpires: nat, bearer: string, since: Option<nat>)

  datatype Action = FullAuth | RefreshAccess | Sleep

  /** The time a token has left, as a saturating difference. */
  function Left(expires: nat, now: nat): nat { if expires > now then expires - now else 0 }

  function Choose(s: State): Action {
    if Left(s.refresh.expires, s.now) < RENEW_BELOW then FullAuth
    else if Left(s.accessExpires, s.now) < RENEW_BELOW then RefreshAccess
    else Sleep
  }

  function Iterate(s: State, reply: Reply): State {
    var action := Choose(s);
    if action == Sleep then s.(now := s.now + SLEEP, since := None)
    else
      var began := if s.since.Some? then s.since.value else s.now;
      var after := s.now + reply.duration;
      if reply.access.None? then s.(now := after, since := Some(began))
      else State(after, if action == FullAuth then reply.refresh else s.refresh,
                 reply.access.value.expires, reply.access.value.value, None)
  }

  function Run(s: State, replies: seq<Reply>): State {
    if replies == [] then s
    else Iterate(Run(s, replies[..|replies| - 1]), replies[|replies| - 1])
  }

  /** The loop's variables when it starts with these tokens. */
  function Begin(start: nat, refresh: Token, access: Token): State {
    State(start, refresh, access.expires, access.value, None)
  }

  /** How long an iteration takes: 5 s when nothing is to be renewed, else as long as the request. */
  lemma TimePasses(s: State, reply: Reply)
    ensures Iterate(s, reply).now == s.now + (if Choose(s) == Sleep then 5_000 else reply.duration)
  {
  }

  // ----- which tokens are in use -----

  /** The access token handed out last: that of the last renewal that succeeded, or the first one. */
  ghost function LatestAccess(start: nat, refresh: Token, access: Token, replies: seq<Reply>): Token {
    if replies == [] then access
    else
      var rest, reply := replies[..|replies| - 1], replies[|replies| - 1];
      if Choose(Run(Begin(start, refresh, access), rest)) != Sleep && reply.access.Some?
      then reply.access.value
      else LatestAccess(start, refresh, access, rest)
  }

  /** The refresh token handed out last: that of the last full authentication that succeeded, or the first one. */
  ghost function LatestRefresh(start: nat, refresh: Token, access: Token, replies: seq<Reply>): Token {
    if replies == [] then refresh
    else
      var rest, reply := replies[..|replies| - 1], replies[|replies| - 1];
      if Choose(Run(Begin(start, refresh, access), rest)) == FullAuth && reply.access.Some?
      then reply.refresh
      else LatestRefresh(start, refresh, access, rest)
  }

  /** After every run the bearer and its expiry, and the refresh token, are those handed out last. */
  lemma {:induction false} TokensAreLatest(start: nat, refresh: Token, access: Token, replies: seq<Reply>)
    ensures var s, latest := Run(Begin(start, refresh, access), replies), LatestAccess(start, refresh, access, replies);
            && s.bearer == latest.value && s.accessExpires == latest.expires
            && s.refresh == LatestRefresh(start, refresh, access, replies)
  {
    if replies != [] {
      TokensAreLatest(start, refresh, access, replies[..|replies| - 1]);
    }
  }

  /** The loop computes the run, and ends with the tokens handed out last. */
  method RefreshLoop(start: nat, initialRefresh: Token, initialAccess: Token, replies: seq<Reply>)
    returns (now: nat, refreshToken: Token, accessTokenExpiration: nat, bearerToken: string)
    ensures var s := Run(Begin(start, initialRefresh, initialAccess), replies);
            && now == s.now && refreshToken == s.refresh
            && accessTokenExpiration == s.accessExpires && bearerToken == s.bearer
    ensures bearerToken == LatestAccess(start, initialRefresh, initialAccess, replies).value
    ensures accessTokenExpiration == LatestAccess(start, initialRefresh, initialAccess, replies).expires
    ensures refreshToken == LatestRefresh(start, initialRefresh, initialAccess, replies)
  {
    now, refreshToken := start, initialRefresh;
    accessTokenExpiration, bearerToken := initialAccess.expires, initialAccess.value;
    ghost var first := Begin(start, initialRefresh, initialAccess);
    for i := 0 to |replies|
      invariant var s := Run(first, replies[..i]);
                && now == s.now && refreshToken == s.refresh
                && accessTokenExpiration == s.accessExpires && bearerToken == s.bearer
    {
      assert replies[..i + 1][..i] == replies[..i];
      var reply := replies[i];
      if Left(refreshToken.expires, now) < RENEW_BELOW {
        if reply.access.Some? {
          bearerToken := reply.access.value.value;
          accessTokenExpiration := reply.access.value.expires;
          refreshToken := reply.refresh;
        }
        now := now + reply.duration;
        continue;
      }
      if Left(accessTokenExpiration, now) < RENEW_BELOW {
        if reply.access.Some? {
          bearerToken := reply.access.value.value;
          accessTokenExpiration := reply.access.value.expires;
        }
        now := now + reply.duration;
        continue;
      }
      now := now + SLEEP;
    }
    assert replies[..|replies|] == replies;
    TokensAreLatest(start, initialRefresh, initialAccess, replies);
  }

  // ----- timely runs -----

  /** A renewal, retries included, is over within `limit`, and its access token lasts longer than `limit`. */
  ghost predicate Timely(s: State, reply: Reply, limit: nat) {
    Choose(s) != Sleep ==>
      && s.now + reply.duration <= (if s.since.Some? then s.since.value else s.now) + limit
      && (reply.access.Some? ==> reply.access.value.expires > s.now + reply.duration + limit)
  }

  ghost predicate TimelyRun(s: State, replies: seq<Reply>, limit: nat) {
    && s.since.None? && s.accessExpires > s.now + limit
    && forall i :: 0 <= i < |replies| ==> Timely(Run(s, replies[..i]), replies[i], limit)
  }

  /** At a renewal's start the bearer token lasts longer than a renewal takes. */
  ghost predicate Fresh(s: State, limit: nat) {
    if s.since.Some? then s.since.value <= s.now <= s.since.value + limit && s.accessExpires > s.since.value + limit
    else s.accessExpires > s.now + limit
  }

  lemma IterateKeepsFresh(s: State, reply: Reply, limit: nat)
    requires limit < RENEW_BELOW - SLEEP && Fresh(s, limit) && Timely(s, reply, limit)
    ensures Fresh(Iterate(s, reply), limit)
    ensures s.now <= Iterate(s, reply).now < s.accessExpires
  {
  }

  lemma {:induction false} RunFresh(s: State, replies: seq<Reply>, limit: nat)
    requires limit < RENEW_BELOW - SLEEP && TimelyRun(s, replies, limit)
    ensures Fresh(Run(s, replies), limit)
  {
    if replies != [] {
      var rest := replies[..|replies| - 1];
      assert forall i :: 0 <= i < |rest| ==> rest[..i] == replies[..i];
      RunFresh(s, rest, limit);
      IterateKeepsFresh(Run(s, rest), replies[|replies| - 1], limit);
    }
  }

  lemma TimelyPrefix(s: State, replies: seq<Reply>, limit: nat, i: nat)
    requires TimelyRun(s, replies, limit) && i <= |replies|
    ensures TimelyRun(s, replies[..i], limit)
  {
    assert forall j :: 0 <= j < i ==> replies[..i][..j] == replies[..j];
  }

  /**
   The bearer token never expires in use: at every instant of every iteration of a run whose
   renewals take less than 295 s, the bearer is the access token handed out last, and that token
   has time left.
   */
  lemma BearerNeverExpires(start: nat, refresh: Token, access: Token, replies: seq<Reply>, limit: nat, i: nat,
      instant: nat)
    requires limit < 295_000 && TimelyRun(Begin(start, refresh, access), replies, limit) && i < |replies|
    requires var s := Begin(start, refresh, access);
             Run(s, replies[..i]).now <= instant <= Run(s, replies[..i + 1]).now
    ensures var token := LatestAccess(start, refresh, access, replies[..i]);
            Run(Begin(start, refresh, access), replies[..i]).bearer == token.value && instant < token.expires
  {
    var s := Begin(start, refresh, access);
    assert replies[..i + 1][..i] == replies[..i];
    TimelyPrefix(s, replies, limit, i);
    RunFresh(s, replies[..i], limit);
    IterateKeepsFresh(Run(s, replies[..i]), replies[i], limit);
    TokensAreLatest(start, refresh, access, replies[..i]);
  }

  /** Every refresh request is made with the refresh token handed out last, which outlives the request. */
  lemma RefreshTokenOutlivesRequest(start: nat, refresh: Token, access: Token, replies: seq<Reply>, limit: nat, i: nat)
    requires limit < 295_000 && TimelyRun(Begin(start, refresh, access), replies, limit) && i < |replies|
    requires Choose(Run(Begin(start, refresh, access), replies[..i])) == RefreshAccess
    ensures var at, token := Run(Begin(start, refresh, access), replies[..i]),
                             LatestRefresh(start, refresh, access, replies[..i]);
            && at.refresh == token && token.expires >= at.now + 300_000
            && token.expires > at.now + replies[i].duration + 5_000
  {
    var s := Begin(start, refresh, access);
    TimelyPrefix(s, replies, limit, i);
    RunFresh(s, replies[..i], limit);
    assert Timely(Run(s, replies[..i]), replies[i], limit);
    TokensAreLatest(start, refresh, access, replies[..i]);
  }

  /** A run in which the token handed out last has run out by the end of some iteration. */
  ghost predicate RunsOut(start: nat, refresh: Token, access: Token, replies: seq<Reply>) {
    exists i :: 0 <= i < |replies|
      && Run(Begin(start, refresh, access), replies[..i + 1]).now
         >= LatestAccess(start, refresh, access, replies[..i]).expires
  }

  /** The bound is exact: as soon as renewals may take 295 s, a timely run lets the token run out. */
  lemma LimitIsExact(limit: nat)
    requires limit >= 295_000
    ensures exists refresh, access, replies ::
              TimelyRun(Begin(0, refresh, access), replies, limit) && RunsOut(0, refresh, access, replies)
  {
    var left := if limit < 300_000 then 300_000 else limit + 1;
    var refresh, access := Token("r", 300_000), Token("a", left);
    var s := Begin(0, refresh, access);
    var late := Reply(limit, Some(Token("b", 5_000 + limit + limit + 1)), Token("r", 0));
    var replies := [late, late];
    assert replies[..0] == [] && replies[..1] == [late] && replies[..2] == replies;
    assert [late][..0] == [];
    assert Run(s, []) == s;
    assert Run(s, [late]) == Iterate(s, late) == s.(now := 5_000);
    assert Run(s, replies) == Iterate(Run(s, [late]), late);
    TokensAreLatest(0, refresh, access, replies[..1]);
    assert Run(s, replies[..1 + 1]).now >= LatestAccess(0, refresh, access, replies[..1]).expires;
    assert TimelyRun(s, replies, limit) && RunsOut(0, refresh, access, replies);
  }

  /** A token with 5 minutes left is not renewed, and one with less is. */
  lemma RenewsBelowFiveMinutes(s: State)
    ensures Choose(s) == Sleep <==> s.refresh.expires >= s.now + 300_000 && s.accessExpires >= s.now + 300_000
    ensures Choose(s) == FullAuth <==> s.refresh.expires < s.now + 300_000
  {
  }
}
