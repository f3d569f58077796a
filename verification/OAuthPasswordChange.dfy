/** What a password change leaves open. Tokens issued before it are dead, but a code approved before it
    can still be redeemed, for as long as codes live. */
module OAuthPasswordChange {
  import opened Options
  import opened OAuthGrants
  import opened OAuthRuns

  /** No code lives longer than its lifetime from now. */
  ghost predicate CodesShort(s: State, now: int) {
    forall c :: c in s.codes ==> s.codes[c].expires <= now + AUTHORIZATION_CODE_TTL
  }

  lemma CodesShortStep(cfg: Config, s: State, now: int, r: Request)
    requires CodesShort(s, now)
    ensures CodesShort(Step(cfg, s, now, r).0, now)
  {
  }

  lemma {:induction false} CodesShortAlong(cfg: Config, s: State, trace: seq<Event>, i: nat)
    requires i < |trace| && ClockForward(trace) && CodesShort(s, trace[0].now)
    ensures CodesShort(Run(cfg, s, trace[..i]), trace[i].now)
  {
    if i > 0 {
      CodesShortAlong(cfg, s, trace, i - 1);
      StepAt(cfg, s, trace, i - 1);
      CodesShortStep(cfg, Run(cfg, s, trace[..i - 1]), trace[i - 1].now, trace[i - 1].request);
      assert trace[i - 1].now <= trace[i].now;
    }
  }

  /** The codes among `known` expire by `limit`. */
  ghost predicate ExpireBy(s: State, known: set<CodeId>, limit: int) {
    && known <= s.codesIssued
    && forall c :: c in s.codes && c in known ==> s.codes[c].expires <= limit
  }

  lemma ExpireByStep(cfg: Config, s: State, now: int, r: Request, known: set<CodeId>, limit: int)
    requires ExpireBy(s, known, limit) && DrawsFresh(s, r)
    ensures ExpireBy(Step(cfg, s, now, r).0, known, limit)
  {
  }

  lemma {:induction false} ExpireByAlong(cfg: Config, s: State, trace: seq<Event>, i: nat, j: nat, known: set<CodeId>,
                                         limit: int)
    requires FreshDraws(s, trace) && i <= j <= |trace| && ExpireBy(Run(cfg, s, trace[..i]), known, limit)
    ensures ExpireBy(Run(cfg, s, trace[..j]), known, limit)
  {
    if i < j {
      ExpireByAlong(cfg, s, trace, i, j - 1, known, limit);
      StepAt(cfg, s, trace, j - 1);
      FreshAt(cfg, s, trace, j - 1, j - 1);
      ExpireByStep(cfg, Run(cfg, s, trace[..j - 1]), trace[j - 1].now, trace[j - 1].request, known, limit);
    }
  }

  /** Step `k` redeems a code for grant `id`. */
  predicate Redeems(cfg: Config, s: State, trace: seq<Event>, k: nat, id: GrantId)
    requires k < |trace|
  {
    trace[k].request.Redeem? && AnswerAt(cfg, s, trace, k).Tokens? && AnswerAt(cfg, s, trace, k).access.grant == id
  }

  lemma NewIssue(cfg: Config, s: State, now: int, r: Request, id: GrantId)
    requires id !in s.issued && id in Step(cfg, s, now, r).0.issued
    ensures r.Redeem? && Step(cfg, s, now, r).1.Tokens? && Step(cfg, s, now, r).1.access.grant == id
  {
  }

  lemma NewCode(cfg: Config, s: State, now: int, r: Request, c: CodeId)
    requires c !in s.codesIssued && c in Step(cfg, s, now, r).0.codesIssued
    ensures r.Approve? && r.newCode == c && Step(cfg, s, now, r).1 == Done
  {
  }

  /** A grant id that a stretch of the run has added was redeemed there. */
  lemma {:induction false} IssuedSince(cfg: Config, s: State, trace: seq<Event>, i: nat, j: nat, id: GrantId)
    returns (k: nat)
    requires i <= j <= |trace|
    requires id !in Run(cfg, s, trace[..i]).issued && id in Run(cfg, s, trace[..j]).issued
    ensures i <= k < j && Redeems(cfg, s, trace, k, id)
  {
    StepAt(cfg, s, trace, j - 1);
    if id in Run(cfg, s, trace[..j - 1]).issued {
      k := IssuedSince(cfg, s, trace, i, j - 1, id);
    } else {
      k := j - 1;
      NewIssue(cfg, Run(cfg, s, trace[..k]), trace[k].now, trace[k].request, id);
    }
  }

  /** Step `l` approves code `c`. */
  predicate Approves(cfg: Config, s: State, trace: seq<Event>, l: nat, c: CodeId)
    requires l < |trace|
  {
    trace[l].request.Approve? && trace[l].request.newCode == c && AnswerAt(cfg, s, trace, l) == Done
  }

  lemma {:induction false} ApprovedSince(cfg: Config, s: State, trace: seq<Event>, i: nat, j: nat, c: CodeId)
    returns (l: nat)
    requires i <= j <= |trace|
    requires c !in Run(cfg, s, trace[..i]).codesIssued && c in Run(cfg, s, trace[..j]).codesIssued
    ensures i <= l < j && Approves(cfg, s, trace, l, c)
  {
    StepAt(cfg, s, trace, j - 1);
    if c in Run(cfg, s, trace[..j - 1]).codesIssued {
      l := ApprovedSince(cfg, s, trace, i, j - 1, c);
    } else {
      l := j - 1;
      NewCode(cfg, Run(cfg, s, trace[..l]), trace[l].now, trace[l].request, c);
    }
  }

  lemma IssueStays(cfg: Config, s: State, now: int, r: Request, id: GrantId)
    requires DrawsFresh(s, r) && id in s.issued
    ensures id in Step(cfg, s, now, r).0.issued && Step(cfg, s, now, r).0.issued[id] == s.issued[id]
  {
  }

  lemma {:induction false} IssuesStay(cfg: Config, s: State, trace: seq<Event>, i: nat, j: nat, id: GrantId)
    requires FreshDraws(s, trace) && i <= j <= |trace| && id in Run(cfg, s, trace[..i]).issued
    ensures id in Run(cfg, s, trace[..j]).issued
    ensures Run(cfg, s, trace[..j]).issued[id] == Run(cfg, s, trace[..i]).issued[id]
  {
    if i < j {
      IssuesStay(cfg, s, trace, i, j - 1, id);
      StepAt(cfg, s, trace, j - 1);
      FreshAt(cfg, s, trace, j - 1, j - 1);
      IssueStays(cfg, Run(cfg, s, trace[..j - 1]), trace[j - 1].now, trace[j - 1].request, id);
    }
  }

  /** Step `j` accepts a token of the owner's grant `id`. */
  ghost predicate Accepts(cfg: Config, s: State, trace: seq<Event>, j: nat, owner: Email, id: GrantId)
    requires j < |trace|
  {
    var before, r, answer := Run(cfg, s, trace[..j]), trace[j].request, AnswerAt(cfg, s, trace, j);
    && id in before.grants && before.grants[id].user == owner
    && ((r.UseRefresh? && r.token.Some? && r.token.value.grant == id && answer.Tokens?)
        || (r.Introspect? && r.bearer.Some? && r.bearer.value.grant == id && answer.Active?))
  }

  lemma OldGrantsAreRefused(cfg: Config, s: State, trace: seq<Event>, i: nat, j: nat, owner: Email, id: GrantId)
    requires Recorded(s) && ClockForward(trace) && FreshDraws(s, trace) && i < j < |trace|
    requires trace[i].request == ChangePassword(owner) && id in Run(cfg, s, trace[..i]).issued
    ensures !Accepts(cfg, s, trace, j, owner, id)
  {
    RecordedAlong(cfg, s, trace, j);
    IssuesStay(cfg, s, trace, i, j, id);
    if Accepts(cfg, s, trace, j, owner, id) {
      var r := trace[j].request;
      if r.UseRefresh? {
        PasswordChangeIsFinal(cfg, s, trace, i, j, owner, id, r.token.value.generation, None);
      } else {
        PasswordChangeIsFinal(cfg, s, trace, i, j, owner, id, r.bearer.value.generation, r.protocol);
      }
    }
  }

  lemma ChangeIssuesNothing(cfg: Config, s: State, trace: seq<Event>, i: nat)
    requires i < |trace| && trace[i].request.ChangePassword?
    ensures Run(cfg, s, trace[..i + 1]).issued == Run(cfg, s, trace[..i]).issued
  {
    StepAt(cfg, s, trace, i);
  }

  /** A grant whose token is accepted after the change was redeemed after the change. */
  lemma AcceptedIsRedeemedLater(cfg: Config, s: State, trace: seq<Event>, i: nat, j: nat, owner: Email, id: GrantId)
    returns (k: nat)
    requires Recorded(s) && ClockForward(trace) && FreshDraws(s, trace) && i < j < |trace|
    requires trace[i].request == ChangePassword(owner) && Accepts(cfg, s, trace, j, owner, id)
    ensures i < k < j && Redeems(cfg, s, trace, k, id)
  {
    if id in Run(cfg, s, trace[..i]).issued {
      OldGrantsAreRefused(cfg, s, trace, i, j, owner, id);
      assert false;
    } else {
      ChangeIssuesNothing(cfg, s, trace, i);
      RecordedAlong(cfg, s, trace, j);
      k := IssuedSince(cfg, s, trace, i + 1, j, id);
    }
  }

  /** Every token of the owner accepted after a password change stems from a later redemption, of a code
      that was approved after the change, or within the lifetime of a code from the change. */
  lemma AcceptedAfterChange(cfg: Config, s: State, trace: seq<Event>, i: nat, j: nat, owner: Email, id: GrantId)
    returns (k: nat, l: nat)
    requires Recorded(s) && ClockForward(trace) && FreshDraws(s, trace) && i < j < |trace|
    requires CodesShort(s, trace[0].now)
    requires trace[i].request == ChangePassword(owner) && Accepts(cfg, s, trace, j, owner, id)
    ensures i < k < j && Redeems(cfg, s, trace, k, id)
    ensures trace[k].now < trace[i].now + AUTHORIZATION_CODE_TTL
            || (i < l < k && Approves(cfg, s, trace, l, trace[k].request.code))
  {
    k := AcceptedIsRedeemedLater(cfg, s, trace, i, j, owner, id);
    l := 0;
    var c, limit := trace[k].request.code, trace[i].now + AUTHORIZATION_CODE_TTL;
    var after := Run(cfg, s, trace[..i + 1]);
    RecordedAlong(cfg, s, trace, k);
    if c in after.codesIssued {
      StepAt(cfg, s, trace, i);
      CodesShortAlong(cfg, s, trace, i);
      ExpireByAlong(cfg, s, trace, i + 1, k, after.codesIssued, limit);
    } else {
      l := ApprovedSince(cfg, s, trace, i + 1, k, c);
    }
  }

  /** A code approved before a password change gives new tokens at any time within its lifetime, so the
      bound of `AcceptedAfterChange` cannot be lowered. */
  lemma CodeOutlivesChange(cfg: Config, d: nat)
    requires d < AUTHORIZATION_CODE_TTL
    ensures var trace := [Event(0, Approve("user", {Imap}, "", "", 0)), Event(0, ChangePassword("user")),
                          Event(d, Redeem(0, "", "", 0))];
            && Recorded(Fresh(ONE_USER)) && CodesShort(Fresh(ONE_USER), 0)
            && ClockForward(trace) && FreshDraws(Fresh(ONE_USER), trace)
            && Redeems(cfg, Fresh(ONE_USER), trace, 2, 0)
  {
    var trace := [Event(0, Approve("user", {Imap}, "", "", 0)), Event(0, ChangePassword("user")),
                  Event(d, Redeem(0, "", "", 0))];
    StepAt(cfg, Fresh(ONE_USER), trace, 0);
    StepAt(cfg, Fresh(ONE_USER), trace, 1);
    assert trace[..0] == [];
  }
}
