/** What holds over every run of the authorization server, whoever presents which token when. */
module OAuthRuns {
  import opened OAuthGrants
  import opened Options

  lemma StepAt(cfg: Config, s: State, trace: seq<Event>, i: nat)
    requires i < |trace|
    ensures Run(cfg, s, trace[..i + 1]) == Step(cfg, Run(cfg, s, trace[..i]), trace[i].now, trace[i].request).0
  {
    assert trace[..i + 1][..i] == trace[..i];
  }

  lemma FreshStep(cfg: Config, s: State, now: int, q: Request, r: Request)
    requires DrawsFresh(s, r) && DrawApart(q, r)
    ensures DrawsFresh(Step(cfg, s, now, q).0, r)
  {
  }

  /** What is fresh before a run is still fresh when its turn comes. */
  lemma {:induction false} FreshAt(cfg: Config, s: State, trace: seq<Event>, i: nat, k: nat)
    requires i <= k < |trace| && FreshDraws(s, trace)
    ensures DrawsFresh(Run(cfg, s, trace[..i]), trace[k].request)
  {
    if i > 0 {
      FreshAt(cfg, s, trace, i - 1, k);
      StepAt(cfg, s, trace, i - 1);
      FreshStep(cfg, Run(cfg, s, trace[..i - 1]), trace[i - 1].now, trace[i - 1].request, trace[k].request);
    }
  }

  /** Why draws have to be fresh: if the random source repeats the id of a grant that was revoked, the
      revoked tokens are accepted again. */
  lemma RepeatedDrawRevives(cfg: Config)
    requires cfg.Valid()
    ensures var s0, token := Fresh(ONE_USER), Token(Access, 0, 0);
            var s1 := Step(cfg, s0, 0, Approve("user", {Imap}, "", "", 0)).0;
            var (s2, first) := Step(cfg, s1, 0, Redeem(0, "", "", 0));
            var s3 := Step(cfg, s2, 0, Revoke(Some(token))).0;
            var s4 := Step(cfg, s3, 0, Approve("user", {Imap}, "", "", 1)).0;
            var s5 := Step(cfg, s4, 0, Redeem(1, "", "", 0)).0;
            && first.Tokens? && first.access == token
            && Step(cfg, s3, 0, Introspect(Some(token), None)).1 == Inactive
            && Step(cfg, s5, 0, Introspect(Some(token), None)).1.Active?
  {
    var s0 := Fresh(ONE_USER);
    ApproveAndRedeem(cfg, s0, 0);
    var s2 := Step(cfg, Step(cfg, s0, 0, Approve("user", {Imap}, "", "", 0)).0, 0, Redeem(0, "", "", 0)).0;
    var s3 := Step(cfg, s2, 0, Revoke(Some(Token(Access, 0, 0)))).0;
    assert s3.grants == map[];
    ApproveAndRedeem(cfg, s3, 1);
  }

  lemma ApproveAndRedeem(cfg: Config, s: State, c: CodeId)
    requires s.grants == map[] && s.codes == map[] && s.users == ONE_USER
    ensures var t := Step(cfg, s, 0, Approve("user", {Imap}, "", "", c)).0;
            var (u, answer) := Step(cfg, t, 0, Redeem(c, "", "", 0));
            && u.grants == map[0 := NewGrant(cfg, 0, "user", {Imap})] && u.codes == map[] && u.users == ONE_USER
            && answer.Tokens? && answer.access == Token(Access, 0, 0)
  {
    assert Cleaned(cfg, s, 0) == s;
    var t := Step(cfg, s, 0, Approve("user", {Imap}, "", "", c)).0;
    assert t.codes == map[c := Code("user", {Imap}, "", "", AUTHORIZATION_CODE_TTL)] && t.grants == map[];
  }

  // ---- generations, codes and grant ids only move forward ----

  /** Where a grant id can still be: not below a generation, or gone for good. */
  datatype Floor = From(generation: nat) | Gone

  ghost predicate AtFloor(s: State, id: GrantId, floor: Floor) {
    && id in s.issued
    && (id in s.grants ==> floor.From? && s.grants[id].generation >= floor.generation)
  }

  /** Grants are only ever held for ids that were handed out, and codes likewise. */
  ghost predicate Recorded(s: State) {
    && (forall id :: id in s.grants ==> id in s.issued && s.grants[id].user == s.issued[id].user)
    && (forall c :: c in s.codes ==> c in s.codesIssued)
  }

  ghost predicate CodeSpent(s: State, c: CodeId) {
    c in s.codesIssued && c !in s.codes
  }

  lemma AtFloorStep(cfg: Config, s: State, now: int, r: Request, id: GrantId, floor: Floor)
    requires AtFloor(s, id, floor) && DrawsFresh(s, r)
    ensures AtFloor(Step(cfg, s, now, r).0, id, floor)
  {
  }

  lemma RecordedStep(cfg: Config, s: State, now: int, r: Request)
    requires Recorded(s)
    ensures Recorded(Step(cfg, s, now, r).0)
  {
  }

  lemma {:induction false} AtFloorAlong(cfg: Config, s: State, trace: seq<Event>, i: nat, j: nat, id: GrantId,
                                        floor: Floor)
    requires FreshDraws(s, trace) && i <= j <= |trace| && AtFloor(Run(cfg, s, trace[..i]), id, floor)
    ensures AtFloor(Run(cfg, s, trace[..j]), id, floor)
  {
    if i < j {
      AtFloorAlong(cfg, s, trace, i, j - 1, id, floor);
      StepAt(cfg, s, trace, j - 1);
      FreshAt(cfg, s, trace, j - 1, j - 1);
      AtFloorStep(cfg, Run(cfg, s, trace[..j - 1]), trace[j - 1].now, trace[j - 1].request, id, floor);
    }
  }

  lemma CodeSpentStep(cfg: Config, s: State, now: int, r: Request, c: CodeId)
    requires CodeSpent(s, c) && DrawsFresh(s, r)
    ensures CodeSpent(Step(cfg, s, now, r).0, c)
  {
  }

  lemma {:induction false} CodeSpentAlong(cfg: Config, s: State, trace: seq<Event>, i: nat, j: nat, c: CodeId)
    requires FreshDraws(s, trace) && i <= j <= |trace| && CodeSpent(Run(cfg, s, trace[..i]), c)
    ensures CodeSpent(Run(cfg, s, trace[..j]), c)
  {
    if i < j {
      CodeSpentAlong(cfg, s, trace, i, j - 1, c);
      StepAt(cfg, s, trace, j - 1);
      FreshAt(cfg, s, trace, j - 1, j - 1);
      CodeSpentStep(cfg, Run(cfg, s, trace[..j - 1]), trace[j - 1].now, trace[j - 1].request, c);
    }
  }

  lemma {:induction false} RecordedAlong(cfg: Config, s: State, trace: seq<Event>, i: nat)
    requires i <= |trace| && Recorded(s)
    ensures Recorded(Run(cfg, s, trace[..i]))
  {
    if i > 0 {
      RecordedAlong(cfg, s, trace, i - 1);
      StepAt(cfg, s, trace, i - 1);
      RecordedStep(cfg, Run(cfg, s, trace[..i - 1]), trace[i - 1].now, trace[i - 1].request);
    }
  }

  /** What a floor refuses. */
  lemma FloorRefuses(cfg: Config, s: State, now: int, id: GrantId, floor: Floor, generation: nat,
                     protocol: Option<Protocol>)
    requires AtFloor(s, id, floor) && (floor.Gone? || generation < floor.generation)
    ensures Step(cfg, s, now, UseRefresh(Some(Token(Refresh, id, generation)))).1 == InvalidGrant
    ensures Step(cfg, s, now, Introspect(Some(Token(Access, id, generation)), protocol)).1 == Inactive
  {
  }

  /** A refresh token succeeds at most once in a run. */
  lemma RefreshSucceedsOnce(cfg: Config, s: State, trace: seq<Event>, i: nat, j: nat, token: Option<Token>)
    requires Recorded(s) && FreshDraws(s, trace) && i < j < |trace|
    requires trace[i].request == trace[j].request == UseRefresh(token)
    requires AnswerAt(cfg, s, trace, i).Tokens?
    ensures AnswerAt(cfg, s, trace, j) == InvalidGrant
  {
    var Token(_, id, generation) := token.value;
    RecordedAlong(cfg, s, trace, i);
    StepAt(cfg, s, trace, i);
    AtFloorAlong(cfg, s, trace, i + 1, j, id, From(generation + 1));
    FloorRefuses(cfg, Run(cfg, s, trace[..j]), trace[j].now, id, From(generation + 1), generation, None);
  }

  /** A code is redeemed at most once in a run. */
  lemma CodeRedeemsOnce(cfg: Config, s: State, trace: seq<Event>, i: nat, j: nat)
    requires Recorded(s) && FreshDraws(s, trace) && i < j < |trace|
    requires trace[i].request.Redeem? && trace[j].request.Redeem? && trace[i].request.code == trace[j].request.code
    requires AnswerAt(cfg, s, trace, i).Tokens?
    ensures AnswerAt(cfg, s, trace, j) == InvalidGrant
  {
    RecordedAlong(cfg, s, trace, i);
    StepAt(cfg, s, trace, i);
    CodeSpentAlong(cfg, s, trace, i + 1, j, trace[i].request.code);
  }

  /** Once an access token of some generation was accepted, no older one of its grant ever is, so at
      any time at most one generation is accepted. */
  lemma AcceptedGenerationsGrow(cfg: Config, s: State, trace: seq<Event>, i: nat, j: nat, id: GrantId, g: nat, h: nat,
                                p: Option<Protocol>, q: Option<Protocol>)
    requires Recorded(s) && FreshDraws(s, trace) && i <= j < |trace|
    requires trace[i].request == Introspect(Some(Token(Access, id, g)), p) && AnswerAt(cfg, s, trace, i).Active?
    requires trace[j].request == Introspect(Some(Token(Access, id, h)), q) && AnswerAt(cfg, s, trace, j).Active?
    ensures g <= h
  {
    RecordedAlong(cfg, s, trace, i);
    AtFloorAlong(cfg, s, trace, i, j, id, From(g));
  }

  /** Replaying a rotated refresh token kills its grant: nothing of that grant is accepted again. */
  lemma ReplayRevokesTheFamily(cfg: Config, s: State, trace: seq<Event>, i: nat, j: nat, id: GrantId, stale: nat,
                               any: nat, protocol: Option<Protocol>)
    requires Recorded(s) && FreshDraws(s, trace) && i < j < |trace|
    requires trace[i].request == UseRefresh(Some(Token(Refresh, id, stale)))
    requires var before := Run(cfg, s, trace[..i]); id in before.grants && stale < before.grants[id].generation
    ensures AnswerAt(cfg, s, trace, i) == InvalidGrant
    ensures trace[j].request == UseRefresh(Some(Token(Refresh, id, any))) ==> AnswerAt(cfg, s, trace, j) == InvalidGrant
    ensures trace[j].request == Introspect(Some(Token(Access, id, any)), protocol) ==>
              AnswerAt(cfg, s, trace, j) == Inactive
  {
    RecordedAlong(cfg, s, trace, i);
    StepAt(cfg, s, trace, i);
    AtFloorAlong(cfg, s, trace, i + 1, j, id, Gone);
    FloorRefuses(cfg, Run(cfg, s, trace[..j]), trace[j].now, id, Gone, any, protocol);
  }

  // ---- forced re-authentication is final ----

  /** Nothing issued for this grant id is accepted at `t` or later. */
  ghost predicate Barred(s: State, id: GrantId, t: int) {
    && id in s.issued
    && (id in s.grants ==>
          && s.grants[id].accessExpires <= t
          && (s.grants[id].refreshExpires.None? || s.grants[id].refreshExpires.value <= t))
  }

  lemma BarredStep(cfg: Config, s: State, now: int, r: Request, id: GrantId, t: int)
    requires Barred(s, id, t) && t <= now && DrawsFresh(s, r)
    ensures Barred(Step(cfg, s, now, r).0, id, t)
  {
  }

  lemma {:induction false} BarredAlong(cfg: Config, s: State, trace: seq<Event>, i: nat, j: nat, id: GrantId, t: int)
    requires FreshDraws(s, trace) && i <= j <= |trace| && Barred(Run(cfg, s, trace[..i]), id, t)
    requires forall k :: i <= k < j ==> t <= trace[k].now
    ensures Barred(Run(cfg, s, trace[..j]), id, t)
  {
    if i < j {
      BarredAlong(cfg, s, trace, i, j - 1, id, t);
      StepAt(cfg, s, trace, j - 1);
      FreshAt(cfg, s, trace, j - 1, j - 1);
      BarredStep(cfg, Run(cfg, s, trace[..j - 1]), trace[j - 1].now, trace[j - 1].request, id, t);
    }
  }

  /** After a password change, every token issued to the user before it is refused for ever. */
  lemma PasswordChangeIsFinal(cfg: Config, s: State, trace: seq<Event>, i: nat, j: nat, owner: Email, id: GrantId,
                              any: nat, protocol: Option<Protocol>)
    requires Recorded(s) && ClockForward(trace) && FreshDraws(s, trace) && i < j < |trace|
    requires trace[i].request == ChangePassword(owner)
    requires var before := Run(cfg, s, trace[..i]); id in before.issued && before.issued[id].user == owner
    ensures trace[j].request == UseRefresh(Some(Token(Refresh, id, any))) ==> AnswerAt(cfg, s, trace, j) == InvalidGrant
    ensures trace[j].request == Introspect(Some(Token(Access, id, any)), protocol) ==>
              AnswerAt(cfg, s, trace, j) == Inactive
  {
    var t := trace[i].now;
    RecordedAlong(cfg, s, trace, i);
    StepAt(cfg, s, trace, i);
    BarredAlong(cfg, s, trace, i + 1, j, id, t);
    assert trace[i].now <= trace[j].now;
  }

  // ---- lifetimes ----

  /** The bounds every grant keeps, relative to when its id was issued. */
  ghost predicate WithinLimits(cfg: Config, g: Grant, issue: Issue) {
    && g.lastRefresh.Some? && issue.at <= g.lastRefresh.value
    && (g.refreshExpires.Some? <==> OfflineAccess in g.scope)
    && if g.refreshExpires.Some? then
         && g.accessExpires <= g.refreshExpires.value <= issue.at + cfg.refreshTtl
         && g.accessExpires <= g.lastRefresh.value + cfg.idle
       else
         && g.lastRefresh.value == issue.at
         && g.accessExpires <= issue.at + cfg.accessTtl
  }

  ghost predicate Inv(cfg: Config, s: State) {
    && Recorded(s)
    && forall id :: id in s.grants ==> WithinLimits(cfg, s.grants[id], s.issued[id])
  }

  lemma NewWithinLimits(cfg: Config, now: int, user: Email, scope: set<Scope>)
    ensures WithinLimits(cfg, NewGrant(cfg, now, user, scope), Issue(user, now))
  {
  }

  lemma RotatedWithinLimits(cfg: Config, now: int, g: Grant, issue: Issue)
    requires WithinLimits(cfg, g, issue) && issue.at <= now && g.refreshExpires.Some?
    ensures WithinLimits(cfg, Rotated(cfg, now, g), issue)
  {
  }

  lemma ForcedWithinLimits(cfg: Config, now: int, g: Grant, issue: Issue)
    requires WithinLimits(cfg, g, issue)
    ensures WithinLimits(cfg, Forced(g, now), issue)
  {
  }

  lemma GrantStep(cfg: Config, s: State, now: int, r: Request, id: GrantId)
    requires Inv(cfg, s) && (forall id :: id in s.issued ==> s.issued[id].at <= now)
    requires id in Step(cfg, s, now, r).0.grants && id in Step(cfg, s, now, r).0.issued
    ensures WithinLimits(cfg, Step(cfg, s, now, r).0.grants[id], Step(cfg, s, now, r).0.issued[id])
  {
    if id in s.grants {
      ForcedWithinLimits(cfg, now, s.grants[id], s.issued[id]);
      if s.grants[id].refreshExpires.Some? {
        RotatedWithinLimits(cfg, now, s.grants[id], s.issued[id]);
      }
    } else {
      var code := s.codes[r.code];
      NewWithinLimits(cfg, now, code.user, code.scope);
    }
  }

  lemma InvStep(cfg: Config, s: State, now: int, r: Request)
    requires Inv(cfg, s) && forall id :: id in s.issued ==> s.issued[id].at <= now
    ensures Inv(cfg, Step(cfg, s, now, r).0)
    ensures forall id :: id in Step(cfg, s, now, r).0.issued ==> Step(cfg, s, now, r).0.issued[id].at <= now
  {
    RecordedStep(cfg, s, now, r);
    var t := Step(cfg, s, now, r).0;
    forall id | id in t.grants
      ensures WithinLimits(cfg, t.grants[id], t.issued[id])
    {
      GrantStep(cfg, s, now, r, id);
    }
    assert t.issued == s.issued || t.issued == s.issued[r.newGrant := t.issued[r.newGrant]];
  }

  ghost predicate StartsBefore(s: State, trace: seq<Event>) {
    forall id, k :: id in s.issued && 0 <= k < |trace| ==> s.issued[id].at <= trace[k].now
  }

  lemma {:induction false} InvAlong(cfg: Config, s: State, trace: seq<Event>, i: nat)
    requires i <= |trace| && Inv(cfg, s) && ClockForward(trace) && StartsBefore(s, trace)
    ensures Inv(cfg, Run(cfg, s, trace[..i]))
    ensures StartsBefore(Run(cfg, s, trace[..i]), trace[i..])
  {
    if i > 0 {
      InvAlong(cfg, s, trace, i - 1);
      StepAt(cfg, s, trace, i - 1);
      var before := Run(cfg, s, trace[..i - 1]);
      assert trace[i - 1..][0] == trace[i - 1];
      InvStep(cfg, before, trace[i - 1].now, trace[i - 1].request);
    }
  }

  /** A grant with `offline_access` that is used at `now` is within both of its limits. */
  ghost predicate InTime(cfg: Config, s: State, id: GrantId, now: int) {
    && id in s.grants && id in s.issued && s.grants[id].lastRefresh.Some?
    && now < s.issued[id].at + cfg.refreshTtl
    && now < s.grants[id].lastRefresh.value + cfg.idle
  }

  /** No chain of refreshes yields a token that is accepted past the refresh lifetime, counted from
      the issue of the grant, or past the idle limit, counted from its last refresh. */
  lemma RefreshChainsEnd(cfg: Config, s: State, trace: seq<Event>, i: nat, id: GrantId, generation: nat,
                         protocol: Option<Protocol>)
    requires i < |trace| && Inv(cfg, s) && ClockForward(trace) && StartsBefore(s, trace)
    ensures trace[i].request == UseRefresh(Some(Token(Refresh, id, generation)))
            && AnswerAt(cfg, s, trace, i).Tokens? ==>
              InTime(cfg, Run(cfg, s, trace[..i]), id, trace[i].now)
    ensures trace[i].request == Introspect(Some(Token(Access, id, generation)), protocol)
            && AnswerAt(cfg, s, trace, i).Active? && OfflineAccess in AnswerAt(cfg, s, trace, i).grantedScope ==>
              InTime(cfg, Run(cfg, s, trace[..i]), id, trace[i].now)
  {
    InvAlong(cfg, s, trace, i);
    var before := Run(cfg, s, trace[..i]);
    assert id in before.grants ==> WithinLimits(cfg, before.grants[id], before.issued[id]);
  }

  /** Request `i` handed out tokens of grant `id`. */
  predicate Renews(cfg: Config, s: State, trace: seq<Event>, i: nat, id: GrantId)
    requires i < |trace|
  {
    AnswerAt(cfg, s, trace, i).Tokens? && AnswerAt(cfg, s, trace, i).access.grant == id
  }

  ghost predicate LastRenewed(s: State, id: GrantId, t: int) {
    id in s.issued && (id in s.grants ==> s.grants[id].lastRefresh == Some(t))
  }

  lemma LastRenewedStep(cfg: Config, s: State, now: int, r: Request, id: GrantId, t: int)
    requires LastRenewed(s, id, t)
    ensures var (s', answer) := Step(cfg, s, now, r);
            (answer.Tokens? && answer.access.grant == id) || LastRenewed(s', id, t)
  {
  }

  lemma {:induction false} LastRenewedAlong(cfg: Config, s: State, trace: seq<Event>, i: nat, j: nat, id: GrantId)
    requires i < j <= |trace| && Recorded(s) && Renews(cfg, s, trace, i, id)
    requires forall k :: i < k < j ==> !Renews(cfg, s, trace, k, id)
    ensures LastRenewed(Run(cfg, s, trace[..j]), id, trace[i].now)
  {
    StepAt(cfg, s, trace, j - 1);
    if i < j - 1 {
      LastRenewedAlong(cfg, s, trace, i, j - 1, id);
      LastRenewedStep(cfg, Run(cfg, s, trace[..j - 1]), trace[j - 1].now, trace[j - 1].request, id, trace[i].now);
      assert !Renews(cfg, s, trace, j - 1, id);
    } else {
      RecordedAlong(cfg, s, trace, i);
      RenewedNow(cfg, Run(cfg, s, trace[..i]), trace[i].now, trace[i].request);
    }
  }

  lemma RenewedNow(cfg: Config, s: State, now: int, r: Request)
    requires Recorded(s)
    ensures var (s', answer) := Step(cfg, s, now, r);
            answer.Tokens? ==> LastRenewed(s', answer.access.grant, now)
  {
  }

  /** Two successive renewals of a grant are less than the idle limit apart. */
  lemma RenewalsAreClose(cfg: Config, s: State, trace: seq<Event>, i: nat, j: nat, id: GrantId)
    requires i < j < |trace| && Recorded(s) && FreshDraws(s, trace)
    requires Renews(cfg, s, trace, i, id) && Renews(cfg, s, trace, j, id)
    requires forall k :: i < k < j ==> !Renews(cfg, s, trace, k, id)
    ensures trace[j].now < trace[i].now + cfg.idle
  {
    LastRenewedAlong(cfg, s, trace, i, j, id);
    FreshAt(cfg, s, trace, j, j);
  }

  /** The token list, the token endpoint and introspection agree: a grant of an enabled user is
      flagged exactly when neither its current refresh token nor its current access token works. */
  lemma ListAgreesWithServer(cfg: Config, s: State, now: int, id: GrantId)
    requires Inv(cfg, s) && id in s.grants && Usable(s.users, s.grants[id].user)
    ensures var g := s.grants[id];
            NeedsReauthentication(cfg, g, now) <==>
              && !Step(cfg, s, now, UseRefresh(Some(Token(Refresh, id, g.generation)))).1.Tokens?
              && !Step(cfg, s, now, Introspect(Some(Token(Access, id, g.generation)), None)).1.Active?
  {
    assert WithinLimits(cfg, s.grants[id], s.issued[id]);
  }
}
