/** Garbage collection must not be noticed: when it deletes a grant, no token of that grant can work
    any more. */
module OAuthCleanup {
  import opened OAuthGrants
  import opened Options
  import opened OAuthRuns

  /** No token of this grant is accepted at `now` or, since nothing revives it, later. */
  ghost predicate Dead(cfg: Config, g: Grant, now: int) {
    g.accessExpires <= now && RefreshExpired(cfg, g, now)
  }

  lemma ExpirableIsDead(cfg: Config, g: Grant, issue: Issue, now: int)
    requires cfg.Valid() && cfg.accessTtl <= EXPIRED_GRANT_RETENTION + cfg.idle
    requires WithinLimits(cfg, g, issue) && Expirable(cfg, g, now)
    ensures Dead(cfg, g, now)
  {
  }

  /** `thin` is `full` without some dead grants and some expired codes. */
  ghost predicate Shadows(cfg: Config, full: State, thin: State, now: int) {
    && full.users == thin.users && full.issued == thin.issued && full.codesIssued == thin.codesIssued
    && (forall id :: id in thin.grants ==> id in full.grants && thin.grants[id] == full.grants[id])
    && (forall id :: id in full.grants && id !in thin.grants ==> Dead(cfg, full.grants[id], now))
    && (forall c :: c in thin.codes ==> c in full.codes && thin.codes[c] == full.codes[c])
    && (forall c :: c in full.codes && c !in thin.codes ==> full.codes[c].expires <= now)
  }

  /** The requests a mail client or the mail server makes; pages and housekeeping are not compared. */
  predicate FromClient(r: Request) {
    r.Approve? || r.Redeem? || r.UseRefresh? || r.Introspect? || r.Revoke?
  }

  lemma CleanedShadows(cfg: Config, full: State, thin: State, now: int)
    requires cfg.Valid() && cfg.accessTtl <= EXPIRED_GRANT_RETENTION + cfg.idle
    requires Inv(cfg, thin) && Shadows(cfg, full, thin, now)
    ensures Shadows(cfg, full, Cleaned(cfg, thin, now), now)
  {
    forall id | id in thin.grants && Expirable(cfg, thin.grants[id], now)
      ensures Dead(cfg, thin.grants[id], now)
    {
      ExpirableIsDead(cfg, thin.grants[id], thin.issued[id], now);
    }
  }

  lemma LaterShadows(cfg: Config, full: State, thin: State, now: int, later: int)
    requires now <= later && Shadows(cfg, full, thin, now)
    ensures Shadows(cfg, full, thin, later)
  {
  }

  lemma BothCleanedShadow(cfg: Config, full: State, thin: State, now: int)
    requires cfg.Valid() && cfg.accessTtl <= EXPIRED_GRANT_RETENTION + cfg.idle
    requires Inv(cfg, thin) && Shadows(cfg, full, thin, now)
    ensures Shadows(cfg, Cleaned(cfg, full, now), Cleaned(cfg, thin, now), now)
  {
    CleanedShadows(cfg, full, thin, now);
  }

  lemma RedeemShadows(cfg: Config, full: State, thin: State, now: int, r: Request)
    requires r.Redeem? && Shadows(cfg, full, thin, now) && Recorded(full) && DrawsFresh(full, r)
    ensures DoRedeem(cfg, full, now, r).1 == DoRedeem(cfg, thin, now, r).1
    ensures Shadows(cfg, DoRedeem(cfg, full, now, r).0, DoRedeem(cfg, thin, now, r).0, now)
  {
  }

  lemma DropShadows(cfg: Config, full: State, thin: State, now: int, id: GrantId)
    requires Shadows(cfg, full, thin, now)
    ensures Shadows(cfg, DropGrant(full, id), DropGrant(thin, id), now)
    ensures id !in thin.grants ==> DropGrant(thin, id) == thin
  {
  }

  /** A refresh token of a grant only the full server still holds is refused there, too. */
  lemma DeadRefresh(cfg: Config, full: State, now: int, token: Token)
    requires token.grant in full.grants && Dead(cfg, full.grants[token.grant], now)
    ensures DoRefresh(cfg, full, now, Some(token)).1 == InvalidGrant
    ensures DoRefresh(cfg, full, now, Some(token)).0 in {full, DropGrant(full, token.grant)}
  {
  }

  lemma RefreshShadows(cfg: Config, full: State, thin: State, now: int, token: Option<Token>)
    requires Shadows(cfg, full, thin, now)
    ensures DoRefresh(cfg, full, now, token).1 == DoRefresh(cfg, thin, now, token).1
    ensures Shadows(cfg, DoRefresh(cfg, full, now, token).0, DoRefresh(cfg, thin, now, token).0, now)
  {
    if token.Some? && token.value.grant in full.grants {
      var id := token.value.grant;
      DropShadows(cfg, full, thin, now, id);
      if id !in thin.grants {
        DeadRefresh(cfg, full, now, token.value);
      }
    }
  }

  lemma ForcedStaysDead(cfg: Config, g: Grant, now: int)
    requires Dead(cfg, g, now)
    ensures Dead(cfg, Forced(g, now), now)
  {
  }

  lemma ForceShadows(cfg: Config, full: State, thin: State, now: int, r: Request)
    requires r.ChangePassword? || r.Reauthenticate?
    requires Shadows(cfg, full, thin, now)
    ensures Shadows(cfg, Step(cfg, full, now, r).0, Step(cfg, thin, now, r).0, now)
  {
    forall id | id in full.grants && Dead(cfg, full.grants[id], now)
      ensures Dead(cfg, Forced(full.grants[id], now), now)
    {
      ForcedStaysDead(cfg, full.grants[id], now);
    }
  }

  lemma ApproveShadows(cfg: Config, full: State, thin: State, now: int, r: Request)
    requires cfg.Valid() && cfg.accessTtl <= EXPIRED_GRANT_RETENTION + cfg.idle
    requires r.Approve? && Inv(cfg, full) && Inv(cfg, thin) && Shadows(cfg, full, thin, now) && DrawsFresh(full, r)
    ensures DoApprove(cfg, full, now, r).1 == DoApprove(cfg, thin, now, r).1
    ensures Shadows(cfg, DoApprove(cfg, full, now, r).0, DoApprove(cfg, thin, now, r).0, now)
  {
    BothCleanedShadow(cfg, full, thin, now);
  }

  lemma AccountShadows(cfg: Config, full: State, thin: State, now: int, account: Email)
    requires Shadows(cfg, full, thin, now)
    ensures Shadows(cfg, WithoutUser(full, account), WithoutUser(thin, account), now)
  {
  }

  lemma IntrospectShadows(cfg: Config, full: State, thin: State, now: int, token: Option<Token>,
                          protocol: Option<Protocol>)
    requires Shadows(cfg, full, thin, now)
    ensures DoIntrospect(full, now, token, protocol) == DoIntrospect(thin, now, token, protocol)
  {
  }

  /** Pages and housekeeping: the states still match. */
  lemma HousekeepingShadows(cfg: Config, full: State, thin: State, now: int, r: Request)
    requires cfg.Valid() && cfg.accessTtl <= EXPIRED_GRANT_RETENTION + cfg.idle && !FromClient(r)
    requires Inv(cfg, thin) && Shadows(cfg, full, thin, now)
    ensures Shadows(cfg, Step(cfg, full, now, r).0, Step(cfg, thin, now, r).0, now)
  {
    match r
    case RevokeOnPage(row) => DropShadows(cfg, full, thin, now, row);
    case Reauthenticate(_) => ForceShadows(cfg, full, thin, now, r);
    case ChangePassword(_) => ForceShadows(cfg, full, thin, now, r);
    case Cleanup => BothCleanedShadow(cfg, full, thin, now);
    case SetUser(_, _) =>
    case DeleteUser(account) => AccountShadows(cfg, full, thin, now, account);
  }

  /** One request on both servers: same answer, and the states still match. */
  lemma ShadowStep(cfg: Config, full: State, thin: State, now: int, r: Request)
    requires cfg.Valid() && cfg.accessTtl <= EXPIRED_GRANT_RETENTION + cfg.idle
    requires Inv(cfg, full) && Inv(cfg, thin) && Shadows(cfg, full, thin, now) && DrawsFresh(full, r)
    ensures FromClient(r) ==> Step(cfg, full, now, r).1 == Step(cfg, thin, now, r).1
    ensures Shadows(cfg, Step(cfg, full, now, r).0, Step(cfg, thin, now, r).0, now)
  {
    if !FromClient(r) {
      HousekeepingShadows(cfg, full, thin, now, r);
    } else {
      match r
      case Approve(_, _, _, _, _) => ApproveShadows(cfg, full, thin, now, r);
      case Redeem(_, _, _, _) => RedeemShadows(cfg, full, thin, now, r);
      case UseRefresh(token) => RefreshShadows(cfg, full, thin, now, token);
      case Introspect(token, protocol) => IntrospectShadows(cfg, full, thin, now, token, protocol);
      case Revoke(token) => if token.Some? { DropShadows(cfg, full, thin, now, token.value.grant); }
    }
  }

  /** The run without its cleanup steps. */
  function WithoutCleanups(trace: seq<Event>): seq<Event> {
    if trace == [] then []
    else
      var e := trace[|trace| - 1];
      WithoutCleanups(trace[..|trace| - 1]) + if e.request.Cleanup? then [] else [e]
  }

  /** The answers clients get in a run, in order. */
  function ClientAnswers(cfg: Config, s: State, trace: seq<Event>): seq<Answer> {
    if trace == [] then []
    else
      var e := trace[|trace| - 1];
      ClientAnswers(cfg, s, trace[..|trace| - 1])
        + if FromClient(e.request) then [AnswerAt(cfg, s, trace, |trace| - 1)] else []
  }

  ghost predicate After(s: State, now: int) {
    forall id :: id in s.issued ==> s.issued[id].at <= now
  }

  /** Both servers in working order, at the same time of day, and matching. */
  ghost predicate Matched(cfg: Config, full: State, thin: State, now: int) {
    Inv(cfg, full) && Inv(cfg, thin) && After(full, now) && After(thin, now) && Shadows(cfg, full, thin, now)
  }

  lemma MatchedLater(cfg: Config, full: State, thin: State, now: int, later: int)
    requires cfg.Valid() && Matched(cfg, full, thin, now) && now <= later
    ensures Matched(cfg, full, thin, later)
  {
    LaterShadows(cfg, full, thin, now, later);
  }

  lemma MatchedStep(cfg: Config, full: State, thin: State, now: int, r: Request)
    requires cfg.Valid() && cfg.accessTtl <= EXPIRED_GRANT_RETENTION + cfg.idle
    requires Matched(cfg, full, thin, now) && DrawsFresh(full, r)
    ensures r.Cleanup? ==> Matched(cfg, full, Step(cfg, thin, now, r).0, now)
    ensures !r.Cleanup? ==> Matched(cfg, Step(cfg, full, now, r).0, Step(cfg, thin, now, r).0, now)
    ensures FromClient(r) ==> Step(cfg, full, now, r).1 == Step(cfg, thin, now, r).1
  {
    InvStep(cfg, thin, now, r);
    if r.Cleanup? {
      CleanedShadows(cfg, full, thin, now);
    } else {
      InvStep(cfg, full, now, r);
      ShadowStep(cfg, full, thin, now, r);
    }
  }

  lemma RunSnoc(cfg: Config, s: State, trace: seq<Event>, e: Event)
    ensures Run(cfg, s, trace + [e]) == Step(cfg, Run(cfg, s, trace), e.now, e.request).0
  {
    assert (trace + [e])[..|trace|] == trace;
  }

  lemma AnswersSnoc(cfg: Config, s: State, trace: seq<Event>, e: Event)
    ensures ClientAnswers(cfg, s, trace + [e]) == ClientAnswers(cfg, s, trace)
      + if FromClient(e.request) then [Step(cfg, Run(cfg, s, trace), e.now, e.request).1] else []
  {
    assert (trace + [e])[..|trace|] == trace;
  }

  lemma {:induction false} ShadowRun(cfg: Config, s: State, trace: seq<Event>, now: int)
    requires cfg.Valid() && cfg.accessTtl <= EXPIRED_GRANT_RETENTION + cfg.idle
    requires Inv(cfg, s) && ClockForward(trace) && StartsBefore(s, trace) && FreshDraws(s, trace)
    requires trace != [] ==> trace[|trace| - 1].now <= now
    requires After(s, now)
    ensures Matched(cfg, Run(cfg, s, WithoutCleanups(trace)), Run(cfg, s, trace), now)
    ensures ClientAnswers(cfg, s, trace) == ClientAnswers(cfg, s, WithoutCleanups(trace))
  {
    if trace != [] {
      var before, e := trace[..|trace| - 1], trace[|trace| - 1];
      var rest := WithoutCleanups(before);
      ShadowRun(cfg, s, before, e.now);
      FreshAt(cfg, s, trace, |trace| - 1, |trace| - 1);
      MatchedStep(cfg, Run(cfg, s, rest), Run(cfg, s, before), e.now, e.request);
      assert trace == before + [e] && WithoutCleanups(trace) == rest + if e.request.Cleanup? then [] else [e];
      assert rest + [] == rest;
      RunSnoc(cfg, s, before, e);
      RunSnoc(cfg, s, rest, e);
      AnswersSnoc(cfg, s, before, e);
      AnswersSnoc(cfg, s, rest, e);
      MatchedLater(cfg, Run(cfg, s, WithoutCleanups(trace)), Run(cfg, s, trace), e.now, now);
    }
  }

  /** Cleanup steps inserted anywhere in a run change no answer a client gets. */
  lemma CleanupIsInvisible(cfg: Config, s: State, trace: seq<Event>)
    requires cfg.Valid() && cfg.accessTtl <= EXPIRED_GRANT_RETENTION + cfg.idle
    requires Inv(cfg, s) && ClockForward(trace) && StartsBefore(s, trace) && FreshDraws(s, trace)
    ensures ClientAnswers(cfg, s, trace) == ClientAnswers(cfg, s, WithoutCleanups(trace))
  {
    if trace != [] {
      var last := trace[|trace| - 1].now;
      assert After(s, last);
      ShadowRun(cfg, s, trace, last);
    }
  }

  /** The run that tells a server with cleanup from one without when access tokens may outlive the
      retention period: an online-only grant is collected while its token is still good. */
  function Telltale(cfg: Config): seq<Event> {
    var late := EXPIRED_GRANT_RETENTION + cfg.idle;
    [Event(0, Approve("user", {Imap}, "", "", 0)),
     Event(0, Redeem(0, "", "", 0)),
     Event(late, Cleanup),
     Event(late, Introspect(Some(Token(Access, 0, 0)), None))]
  }

  lemma TelltaleGrant(cfg: Config)
    ensures var s := Run(cfg, Fresh(ONE_USER), Telltale(cfg)[..2]);
            s.grants == map[0 := NewGrant(cfg, 0, "user", {Imap})] && s.users == ONE_USER
  {
    var s, trace := Fresh(ONE_USER), Telltale(cfg);
    StepAt(cfg, s, trace, 0);
    StepAt(cfg, s, trace, 1);
    assert trace[..0] == [];
    assert Cleaned(cfg, s, 0) == s;
    var s1 := Run(cfg, s, trace[..1]);
    assert s1.codes == map[0 := Code("user", {Imap}, "", "", AUTHORIZATION_CODE_TTL)];
    assert Run(cfg, s, trace[..2]).grants == map[0 := NewGrant(cfg, 0, "user", {Imap})];
  }

  lemma TelltaleQuiet(cfg: Config)
    ensures var trace := Telltale(cfg); WithoutCleanups(trace) == trace[..2] + [trace[3]]
  {
    var trace := Telltale(cfg);
    var t1, t2, t3 := trace[..1], trace[..2], trace[..3];
    assert t3[..2] == t2 && t2[..1] == t1 && t1[..0] == [];
    assert WithoutCleanups(t1) == t1;
    assert WithoutCleanups(t2) == t2;
    assert WithoutCleanups(t3) == t2 + [] == t2;
  }

  lemma TelltaleAnswers(cfg: Config)
    requires cfg.Valid() && cfg.accessTtl > EXPIRED_GRANT_RETENTION + cfg.idle
    ensures var s, trace := Fresh(ONE_USER), Telltale(cfg);
            && AnswerAt(cfg, s, trace, 3) == Inactive
            && AnswerAt(cfg, s, trace[..2] + [trace[3]], 2).Active?
  {
    var s, trace := Fresh(ONE_USER), Telltale(cfg);
    TelltaleGrant(cfg);
    TelltaleCleanup(cfg, Run(cfg, s, trace[..2]));
    TelltaleEnd(cfg, s, trace);
  }

  lemma TelltaleEnd(cfg: Config, s: State, trace: seq<Event>)
    requires |trace| == 4
    ensures AnswerAt(cfg, s, trace, 3)
         == Step(cfg, Step(cfg, Run(cfg, s, trace[..2]), trace[2].now, trace[2].request).0,
                 trace[3].now, trace[3].request).1
    ensures AnswerAt(cfg, s, trace[..2] + [trace[3]], 2)
         == Step(cfg, Run(cfg, s, trace[..2]), trace[3].now, trace[3].request).1
  {
    StepAt(cfg, s, trace, 2);
    assert (trace[..2] + [trace[3]])[..2] == trace[..2];
  }

  lemma TelltaleCleanup(cfg: Config, s: State)
    requires cfg.Valid() && cfg.accessTtl > EXPIRED_GRANT_RETENTION + cfg.idle
    requires s.grants == map[0 := NewGrant(cfg, 0, "user", {Imap})] && s.users == ONE_USER
    ensures var late, asked := EXPIRED_GRANT_RETENTION + cfg.idle, Introspect(Some(Token(Access, 0, 0)), None);
            && Step(cfg, s, late, asked).1.Active?
            && Step(cfg, Step(cfg, s, late, Cleanup).0, late, asked).1 == Inactive
  {
    assert Step(cfg, s, EXPIRED_GRANT_RETENTION + cfg.idle, Cleanup).0.grants == map[];
  }

  lemma LastAnswer(cfg: Config, s: State, trace: seq<Event>)
    requires trace != [] && FromClient(trace[|trace| - 1].request)
    ensures var a := ClientAnswers(cfg, s, trace);
            a != [] && a[|a| - 1] == AnswerAt(cfg, s, trace, |trace| - 1)
  {
  }

  lemma CleanupShows(cfg: Config)
    requires cfg.Valid() && cfg.accessTtl > EXPIRED_GRANT_RETENTION + cfg.idle
    ensures var s, trace := Fresh(ONE_USER), Telltale(cfg);
            && Inv(cfg, s) && ClockForward(trace) && StartsBefore(s, trace) && FreshDraws(s, trace)
            && ClientAnswers(cfg, s, trace) != ClientAnswers(cfg, s, WithoutCleanups(trace))
  {
    var s, trace := Fresh(ONE_USER), Telltale(cfg);
    TelltaleQuiet(cfg);
    TelltaleAnswers(cfg);
    LastAnswer(cfg, s, trace);
    LastAnswer(cfg, s, trace[..2] + [trace[3]]);
  }

  /** Cleanup goes unnoticed in every run of every server if and only if access tokens do not
      outlive the retention period by more than the idle limit. */
  lemma CleanupIsInvisibleExactlyWhen(cfg: Config)
    requires cfg.Valid()
    ensures cfg.accessTtl <= EXPIRED_GRANT_RETENTION + cfg.idle <==>
            forall s, trace :: Inv(cfg, s) && ClockForward(trace) && StartsBefore(s, trace) && FreshDraws(s, trace) ==>
              ClientAnswers(cfg, s, trace) == ClientAnswers(cfg, s, WithoutCleanups(trace))
  {
    if cfg.accessTtl <= EXPIRED_GRANT_RETENTION + cfg.idle {
      forall s, trace | Inv(cfg, s) && ClockForward(trace) && StartsBefore(s, trace) && FreshDraws(s, trace)
        ensures ClientAnswers(cfg, s, trace) == ClientAnswers(cfg, s, WithoutCleanups(trace))
      {
        CleanupIsInvisible(cfg, s, trace);
      }
    } else {
      CleanupShows(cfg);
    }
  }
}
