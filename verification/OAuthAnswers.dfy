/** When the authorization server says yes, in terms of what happened before and of the numbers in the
    configuration, and what it then hands out. */
module OAuthAnswers {
  import opened Options
  import opened OAuthGrants
  import opened OAuthRuns

  predicate EnabledUser(s: State, email: Email) {
    email in s.users && s.users[email].enabled
  }

  function Least(a: int, b: int, c: int): int {
    if a <= b && a <= c then a else if b <= c then b else c
  }

  // ---- codes ----

  predicate IsApproval(r: Request, c: CodeId) {
    r.Approve? && r.newCode == c
  }

  /** The code a request approves, as the table keeps it. */
  function ApprovedCode(e: Event): Code
    requires e.request.Approve?
  {
    Code(e.request.resourceOwner, e.request.wanted, e.request.redirect, e.request.challenge, e.now + 300)
  }

  lemma CodeStep(cfg: Config, s: State, e: Event, c: CodeId)
    requires c in Step(cfg, s, e.now, e.request).0.codes
    ensures var (t, answer) := Step(cfg, s, e.now, e.request);
            || (c in s.codes && t.codes[c] == s.codes[c])
            || (IsApproval(e.request, c) && answer == Done && EnabledUser(s, e.request.resourceOwner)
                && t.codes[c] == ApprovedCode(e))
  {
  }

  /** Every code in the table stems from an approval. */
  lemma {:induction false} CodeWasApproved(cfg: Config, s: State, trace: seq<Event>, j: nat, c: CodeId) returns (i: nat)
    requires s.codes == map[] && j <= |trace| && c in Run(cfg, s, trace[..j]).codes
    ensures i < j && IsApproval(trace[i].request, c) && AnswerAt(cfg, s, trace, i) == Done
    ensures Run(cfg, s, trace[..j]).codes[c] == ApprovedCode(trace[i])
  {
    if j > 0 {
      StepAt(cfg, s, trace, j - 1);
      CodeStep(cfg, Run(cfg, s, trace[..j - 1]), trace[j - 1], c);
      if c in Run(cfg, s, trace[..j - 1]).codes
         && Run(cfg, s, trace[..j - 1]).codes[c] == Run(cfg, s, trace[..j]).codes[c] {
        i := CodeWasApproved(cfg, s, trace, j - 1, c);
      } else {
        i := j - 1;
      }
    }
  }

  /** What a redemption needs, and what it gives. */
  lemma RedeemStep(cfg: Config, s: State, now: int, r: Request)
    requires cfg.Valid() && r.Redeem?
    ensures var (t, answer) := Step(cfg, s, now, r);
            && (answer.Tokens? <==>
                  && r.code in s.codes && now < s.codes[r.code].expires
                  && s.codes[r.code].redirect == r.redirectBack && s.codes[r.code].challenge == r.computed
                  && EnabledUser(s, s.codes[r.code].user) && r.newGrant !in s.grants)
            && (answer.Tokens? ==>
                  var code := s.codes[r.code];
                  && Granted(cfg, now, answer, r.newGrant, code.scope)
                  && r.newGrant in t.grants && t.grants[r.newGrant].user == code.user && r.code !in t.codes)
  {
  }

  /** A refused redemption changes nothing, but for a code of a disabled user, which is spent. */
  lemma RefusedRedemption(cfg: Config, s: State, now: int, r: Request)
    requires r.Redeem? && !Step(cfg, s, now, r).1.Tokens?
    ensures var (t, answer) := Step(cfg, s, now, r);
            var fits := && r.code in s.codes && now < s.codes[r.code].expires
                        && s.codes[r.code].redirect == r.redirectBack && s.codes[r.code].challenge == r.computed;
            var enabled := fits && EnabledUser(s, s.codes[r.code].user);
            && answer == (if enabled then Failure else InvalidGrant)
            && t == if fits && !enabled then s.(codes := s.codes - {r.code}) else s
  {
  }

  /** The tokens of a new grant: first generation, the scope asked for, a refresh token for offline
      access only, and the lifetime promised. */
  predicate Granted(cfg: Config, now: int, answer: Answer, id: GrantId, scope: set<Scope>) {
    && answer.Tokens? && answer.access == Token(Access, id, 0) && answer.scope == scope
    && answer.refresh == (if OfflineAccess in scope then Some(Token(Refresh, id, 0)) else None)
    && answer.expiresIn
       == (if OfflineAccess in scope then Least(cfg.accessTtl, cfg.refreshTtl, cfg.idle) else cfg.accessTtl)
  }

  /** Who gets tokens for a code has got it approved before, less than 300 seconds ago, with the same
      redirect and challenge; and the tokens are for the user and the scope approved then. */
  lemma RedeemedWasApproved(cfg: Config, s: State, trace: seq<Event>, j: nat) returns (i: nat)
    requires cfg.Valid() && s.codes == map[] && j < |trace|
    requires trace[j].request.Redeem? && AnswerAt(cfg, s, trace, j).Tokens?
    ensures i < j && IsApproval(trace[i].request, trace[j].request.code) && AnswerAt(cfg, s, trace, i) == Done
    ensures trace[i].request.redirect == trace[j].request.redirectBack
    ensures trace[i].request.challenge == trace[j].request.computed
    ensures trace[j].now < trace[i].now + 300
    ensures EnabledUser(Run(cfg, s, trace[..j]), trace[i].request.resourceOwner)
    ensures Granted(cfg, trace[j].now, AnswerAt(cfg, s, trace, j), trace[j].request.newGrant, trace[i].request.wanted)
    ensures var grants := Run(cfg, s, trace[..j + 1]).grants;
            && trace[j].request.newGrant in grants
            && grants[trace[j].request.newGrant].user == trace[i].request.resourceOwner
  {
    var before, r := Run(cfg, s, trace[..j]), trace[j].request;
    RedeemStep(cfg, before, trace[j].now, r);
    StepAt(cfg, s, trace, j);
    i := CodeWasApproved(cfg, s, trace, j, r.code);
  }

  /** A request that can spend or withdraw the code: a redemption with the right redirect and challenge,
      or the deletion of the account. */
  predicate Spends(r: Request, approval: Request)
    requires approval.Approve?
  {
    || (r.Redeem? && r.code == approval.newCode && r.redirectBack == approval.redirect
        && r.computed == approval.challenge)
    || (r.DeleteUser? && r.account == approval.resourceOwner)
  }

  lemma CodeStaysStep(cfg: Config, s: State, now: int, r: Request, approval: Event)
    requires approval.request.Approve? && now < approval.now + 300 && DrawsFresh(s, r)
    requires var c := approval.request.newCode;
             c in s.codes && s.codes[c] == ApprovedCode(approval) && c in s.codesIssued
    requires !Spends(r, approval.request)
    ensures var t, c := Step(cfg, s, now, r).0, approval.request.newCode;
            c in t.codes && t.codes[c] == s.codes[c] && c in t.codesIssued
  {
  }

  lemma ApprovalStep(cfg: Config, s: State, e: Event)
    requires e.request.Approve? && Step(cfg, s, e.now, e.request).1 == Done
    ensures var t, c := Step(cfg, s, e.now, e.request).0, e.request.newCode;
            c in t.codes && t.codes[c] == ApprovedCode(e) && c in t.codesIssued
  {
  }

  lemma {:induction false} CodeStays(cfg: Config, s: State, trace: seq<Event>, i: nat, j: nat)
    requires i < j <= |trace| && ClockForward(trace) && FreshDraws(s, trace)
    requires trace[i].request.Approve? && AnswerAt(cfg, s, trace, i) == Done
    requires trace[j - 1].now < trace[i].now + 300
    requires forall k :: i < k < j ==> !Spends(trace[k].request, trace[i].request)
    ensures var t, c := Run(cfg, s, trace[..j]), trace[i].request.newCode;
            c in t.codes && t.codes[c] == ApprovedCode(trace[i]) && c in t.codesIssued
  {
    StepAt(cfg, s, trace, j - 1);
    if i == j - 1 {
      ApprovalStep(cfg, Run(cfg, s, trace[..i]), trace[i]);
    } else {
      FreshAt(cfg, s, trace, j - 1, j - 1);
      assert trace[j - 2].now <= trace[j - 1].now;
      CodeStays(cfg, s, trace, i, j - 1);
      CodeStaysStep(cfg, Run(cfg, s, trace[..j - 1]), trace[j - 1].now, trace[j - 1].request, trace[i]);
    }
  }

  /** And a code that has been approved is good for 300 seconds, whatever wrong attempts are made: the
      first redemption with the right redirect and challenge gets its tokens. */
  lemma ApprovedCodeRedeems(cfg: Config, s: State, trace: seq<Event>, i: nat, j: nat)
    requires cfg.Valid() && Recorded(s) && ClockForward(trace) && FreshDraws(s, trace) && i < j < |trace|
    requires trace[i].request.Approve? && AnswerAt(cfg, s, trace, i) == Done
    requires trace[j].request.Redeem? && Spends(trace[j].request, trace[i].request)
    requires trace[j].now < trace[i].now + 300
    requires forall k :: i < k < j ==> !Spends(trace[k].request, trace[i].request)
    requires EnabledUser(Run(cfg, s, trace[..j]), trace[i].request.resourceOwner)
    ensures Granted(cfg, trace[j].now, AnswerAt(cfg, s, trace, j), trace[j].request.newGrant, trace[i].request.wanted)
  {
    assert trace[j - 1].now <= trace[j].now;
    CodeStays(cfg, s, trace, i, j);
    FreshAt(cfg, s, trace, j, j);
    RecordedAlong(cfg, s, trace, j);
    RedeemStep(cfg, Run(cfg, s, trace[..j]), trace[j].now, trace[j].request);
  }

  /** Approval is for enabled users, and otherwise changes nothing. */
  lemma ApproveExactlyWhen(cfg: Config, s: State, now: int, r: Request)
    requires r.Approve? && DrawsFresh(s, r) && Recorded(s)
    ensures var (t, answer) := Step(cfg, s, now, r);
            if EnabledUser(s, r.resourceOwner)
            then answer == Done && r.newCode in t.codes && t.codes[r.newCode] == ApprovedCode(Event(now, r))
            else answer == Denied && t == s
  {
  }

  // ---- refresh tokens ----

  /** When the grant was last used; old grants without that record count from their issue. */
  function LastUsed(cfg: Config, g: Grant): int
    requires g.refreshExpires.Some?
  {
    if g.lastRefresh.Some? then g.lastRefresh.value else g.refreshExpires.value - cfg.refreshTtl
  }

  predicate CurrentRefresh(s: State, token: Option<Token>) {
    && token.Some? && token.value.kind == Refresh && token.value.grant in s.grants
    && token.value.generation == s.grants[token.value.grant].generation
  }

  /** A refresh token works exactly if it is the current one of a grant, the grant is within both its
      limits and the user is enabled. */
  lemma RefreshExactlyWhen(cfg: Config, s: State, now: int, token: Option<Token>)
    ensures Step(cfg, s, now, UseRefresh(token)).1.Tokens? <==>
              && CurrentRefresh(s, token)
              && var g := s.grants[token.value.grant];
              && g.refreshExpires.Some? && now < g.refreshExpires.value && now < LastUsed(cfg, g) + cfg.idle
              && EnabledUser(s, g.user)
  {
  }

  /** It then gives the next generation and nothing else of the grant changes but its activity. */
  lemma RefreshGives(cfg: Config, s: State, now: int, token: Option<Token>)
    requires Step(cfg, s, now, UseRefresh(token)).1.Tokens? && cfg.Valid()
    ensures var (t, answer) := Step(cfg, s, now, UseRefresh(token));
            var Token(_, id, generation) := token.value;
            var g := s.grants[id];
            var left := g.refreshExpires.value - now;
            var lifetime := if OfflineAccess in g.scope then Least(cfg.accessTtl, left, cfg.idle) else cfg.accessTtl;
            && answer == Tokens(Token(Access, id, generation + 1),
                                if OfflineAccess in g.scope then Some(Token(Refresh, id, generation + 1)) else None,
                                lifetime, g.scope)
            && t == s.(grants := s.grants[id := g.(generation := generation + 1, lastRefresh := Some(now),
                                                   accessExpires := now + lifetime)])
  {
  }

  /** A refused one: an older generation, or a current one out of its limits or of a disabled user, takes
      the grant along; anything else changes nothing. */
  lemma RefusedRefresh(cfg: Config, s: State, now: int, token: Option<Token>)
    requires !Step(cfg, s, now, UseRefresh(token)).1.Tokens?
    ensures var (t, answer) := Step(cfg, s, now, UseRefresh(token));
            && answer == InvalidGrant
            && var kills := token.Some? && token.value.kind == Refresh && token.value.grant in s.grants
                            && token.value.generation <= s.grants[token.value.grant].generation;
            t == if kills then s.(grants := s.grants - {token.value.grant}) else s
  {
  }

  // ---- access tokens ----

  /** Which scope each protocol asks for, and the user's own switches. */
  predicate MayUse(protocol: Option<Protocol>, scope: set<Scope>, user: User) {
    protocol.None? ||
    match protocol.value
    case ImapLogin => Imap in scope && user.enableImap
    case Pop3Login => Pop3 in scope && user.enablePop
    case SmtpLogin => Smtp in scope
    case Submission => Smtp in scope
    case SieveLogin => Sieve in scope
    case UnknownProtocol => false
  }

  /** An access token is good exactly if it is the current one of a grant and has not expired, and its
      user is enabled and may use the protocol. */
  lemma ActiveExactlyWhen(cfg: Config, s: State, now: int, bearer: Option<Token>, protocol: Option<Protocol>)
    ensures var (t, answer) := Step(cfg, s, now, Introspect(bearer, protocol));
            && t == s && (answer.Active? || answer == Inactive)
            && (answer.Active? <==>
                  && bearer.Some? && bearer.value.kind == Access && bearer.value.grant in s.grants
                  && var g := s.grants[bearer.value.grant];
                  && bearer.value.generation == g.generation && now < g.accessExpires && EnabledUser(s, g.user)
                  && MayUse(protocol, g.scope, s.users[g.user]))
            && (answer.Active? ==>
                  var g := s.grants[bearer.value.grant]; answer == Active(g.user, g.scope, g.accessExpires))
  {
  }

  /** A token handed out works for exactly the lifetime told with it. */
  lemma TokenLastsAsTold(cfg: Config, s: State, now: int, r: Request, later: int)
    requires cfg.Valid() && (r.Redeem? || r.UseRefresh?) && Step(cfg, s, now, r).1.Tokens?
    ensures var (t, answer) := Step(cfg, s, now, r);
            && answer.expiresIn > 0
            && (Step(cfg, t, later, Introspect(Some(answer.access), None)).1.Active?
                <==> later < now + answer.expiresIn)
  {
    if r.UseRefresh? {
      RefreshGives(cfg, s, now, r.token);
      RefreshExactlyWhen(cfg, s, now, r.token);
    } else {
      RedeemStep(cfg, s, now, r);
    }
  }

  /** The token list flags a grant without refresh once its access token has expired, any other once it
      is past its end or past its idle time. */
  lemma FlaggedExactlyWhen(cfg: Config, g: Grant, now: int)
    ensures NeedsReauthentication(cfg, g, now) <==>
              if g.refreshExpires.None? then g.accessExpires <= now
              else g.refreshExpires.value <= now || LastUsed(cfg, g) + cfg.idle <= now
  {
  }

  // ---- withdrawal ----

  /** A request that withdraws grant `id`. */
  predicate Withdraws(s: State, r: Request, id: GrantId) {
    || (r.Revoke? && r.revoked.Some? && r.revoked.value.grant == id)
    || (r.RevokeOnPage? && r.row == id)
    || (r.DeleteUser? && id in s.grants && s.grants[id].user == r.account)
  }

  /** Nothing of a withdrawn grant is accepted again. */
  lemma WithdrawalIsFinal(cfg: Config, s: State, trace: seq<Event>, i: nat, j: nat, id: GrantId, any: nat,
                          protocol: Option<Protocol>)
    requires Recorded(s) && FreshDraws(s, trace) && i < j < |trace| && id in Run(cfg, s, trace[..i]).issued
    requires Withdraws(Run(cfg, s, trace[..i]), trace[i].request, id)
    ensures trace[j].request == UseRefresh(Some(Token(Refresh, id, any))) ==> AnswerAt(cfg, s, trace, j) == InvalidGrant
    ensures trace[j].request == Introspect(Some(Token(Access, id, any)), protocol) ==>
              AnswerAt(cfg, s, trace, j) == Inactive
  {
    StepAt(cfg, s, trace, i);
    AtFloorAlong(cfg, s, trace, i + 1, j, id, Gone);
    FloorRefuses(cfg, Run(cfg, s, trace[..j]), trace[j].now, id, Gone, any, protocol);
  }

  /** Withdrawal, a password change and forced re-authentication do not touch other grants. */
  lemma OthersAreSpared(cfg: Config, s: State, now: int, r: Request, id: GrantId)
    requires r.Revoke? || r.RevokeOnPage? || r.Reauthenticate? || r.ChangePassword? || r.DeleteUser?
    requires id in s.grants && !Withdraws(s, r, id)
    requires !(r.Reauthenticate? && r.row == id) && !(r.ChangePassword? && r.owner == s.grants[id].user)
    ensures var t := Step(cfg, s, now, r).0; id in t.grants && t.grants[id] == s.grants[id]
  {
  }

  /** A forced grant keeps its row and its generation; neither of its tokens works from now on. */
  lemma ForcedKeepsItsRow(cfg: Config, s: State, now: int, r: Request, id: GrantId, later: int,
                          protocol: Option<Protocol>)
    requires id in s.grants && now <= later
    requires (r.Reauthenticate? && r.row == id) || (r.ChangePassword? && r.owner == s.grants[id].user)
    ensures var t := Step(cfg, s, now, r).0;
            && id in t.grants && t.grants[id].generation == s.grants[id].generation
            && t.grants[id].user == s.grants[id].user && t.grants[id].scope == s.grants[id].scope
            && !Step(cfg, t, later, UseRefresh(Some(Token(Refresh, id, s.grants[id].generation)))).1.Tokens?
            && Step(cfg, t, later, Introspect(Some(Token(Access, id, s.grants[id].generation)), protocol)).1 == Inactive
  {
  }

  /** What the garbage collection leaves: codes that have not expired; grants until 30 days, 2592000
      seconds, after their end, and until as long after the end of their idle time. */
  lemma CleanupLeaves(cfg: Config, s: State, now: int)
    ensures var t := Step(cfg, s, now, Cleanup).0;
            && (forall c :: c in t.codes <==> c in s.codes && now < s.codes[c].expires)
            && (forall c :: c in t.codes ==> t.codes[c] == s.codes[c])
            && (forall id :: id in t.grants <==>
                  && id in s.grants
                  && var g := s.grants[id];
                  && now < (if g.refreshExpires.Some? then g.refreshExpires.value else g.accessExpires) + 2592000
                  && (g.lastRefresh.Some? ==> now < g.lastRefresh.value + cfg.idle + 2592000))
            && (forall id :: id in t.grants ==> t.grants[id] == s.grants[id])
            && t.users == s.users
  {
  }
}
