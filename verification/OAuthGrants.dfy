/** The authorization server's grants and codes, and what one request does to them. A mail token is
    the authenticated triple its text carries; any triple may be presented at any time. */
module OAuthGrants {
  import opened Options

  type Email = string
  type GrantId = nat
  type CodeId = nat

  const AUTHORIZATION_CODE_TTL := 300
  const EXPIRED_GRANT_RETENTION := 30 * 24 * 60 * 60

  datatype Scope = Imap | Pop3 | Smtp | Sieve | OfflineAccess
  datatype Protocol = ImapLogin | SmtpLogin | Submission | Pop3Login | SieveLogin | UnknownProtocol
  datatype Kind = Access | Refresh
  datatype Token = Token(kind: Kind, grant: GrantId, generation: nat)

  datatype Config = Config(accessTtl: int, refreshTtl: int, idle: int) {
    /** Start-up refuses any other configuration. */
    predicate Valid() {
      accessTtl > 0 && refreshTtl > 0 && idle > 0
    }
  }

  datatype User = User(enabled: bool, enableImap: bool, enablePop: bool)

  datatype Code = Code(user: Email, scope: set<Scope>, redirect: string, challenge: string, expires: int)

  datatype Grant = Grant(
    user: Email,
    scope: set<Scope>,
    generation: nat,
    accessExpires: int,
    refreshExpires: Option<int>,
    lastRefresh: Option<int>)

  datatype Issue = Issue(user: Email, at: int)

  /** `issued` and `codesIssued` are history: every grant id and code ever handed out. */
  datatype State = State(
    grants: map<GrantId, Grant>,
    codes: map<CodeId, Code>,
    users: map<Email, User>,
    issued: map<GrantId, Issue>,
    codesIssued: set<CodeId>)

  function Min(a: int, b: int): int {
    if a <= b then a else b
  }

  function Max(a: int, b: int): int {
    if a >= b then a else b
  }

  // ---- issuing ----

  /** When an access token issued now stops being valid. */
  function AccessDeadline(cfg: Config, now: int, scope: set<Scope>, refreshExpires: Option<int>): int {
    var plain := now + cfg.accessTtl;
    if OfflineAccess in scope && refreshExpires.Some?
    then Min(plain, Min(refreshExpires.value, now + cfg.idle))
    else plain
  }

  function NewGrant(cfg: Config, now: int, user: Email, scope: set<Scope>): Grant {
    var refreshExpires := if OfflineAccess in scope then Some(now + cfg.refreshTtl) else None;
    Grant(user, scope, 0, AccessDeadline(cfg, now, scope, refreshExpires), refreshExpires, Some(now))
  }

  function Renewed(cfg: Config, now: int, g: Grant): Grant {
    g.(lastRefresh := Some(now), accessExpires := AccessDeadline(cfg, now, g.scope, g.refreshExpires))
  }

  function Rotated(cfg: Config, now: int, g: Grant): Grant {
    Renewed(cfg, now, g.(generation := g.generation + 1))
  }

  datatype Answer =
    | Tokens(access: Token, refresh: Option<Token>, expiresIn: int, scope: set<Scope>)
    | InvalidGrant
    | Denied
    | Active(subject: Email, grantedScope: set<Scope>, expires: int)
    | Inactive
    | Done
    | NotFound
    | Failure

  function TokenResponse(id: GrantId, g: Grant, now: int): Answer {
    Tokens(Token(Access, id, g.generation),
           if OfflineAccess in g.scope then Some(Token(Refresh, id, g.generation)) else None,
           Max(0, g.accessExpires - now), g.scope)
  }

  // ---- deciding ----

  predicate Usable(users: map<Email, User>, email: Email) {
    email in users && users[email].enabled
  }

  /** Grants without an activity time were issued with an absolute expiry counted from then. */
  function LastUse(cfg: Config, g: Grant): Option<int> {
    if g.lastRefresh.Some? then g.lastRefresh
    else if g.refreshExpires.Some? then Some(g.refreshExpires.value - cfg.refreshTtl)
    else None
  }

  predicate RefreshExpired(cfg: Config, g: Grant, now: int) {
    || g.refreshExpires.None?
    || g.refreshExpires.value <= now
    || LastUse(cfg, g).None?
    || LastUse(cfg, g).value + cfg.idle <= now
  }

  function RequiredScope(p: Protocol): Option<Scope> {
    match p
    case ImapLogin => Some(Imap)
    case SmtpLogin => Some(Smtp)
    case Submission => Some(Smtp)
    case Pop3Login => Some(Pop3)
    case SieveLogin => Some(Sieve)
    case UnknownProtocol => None
  }

  predicate ProtocolEnabled(protocol: Option<Protocol>, g: Grant, user: User) {
    protocol.None? ||
    (var required := RequiredScope(protocol.value);
     && required.Some? && required.value in g.scope
     && !(protocol.value.ImapLogin? && !user.enableImap)
     && !(protocol.value.Pop3Login? && !user.enablePop))
  }

  /** The acceptance predicate of introspection. */
  predicate Accepted(s: State, now: int, token: Option<Token>, protocol: Option<Protocol>) {
    && token.Some? && token.value.kind.Access?
    && token.value.grant in s.grants
    && var g := s.grants[token.value.grant];
    && token.value.generation == g.generation
    && g.accessExpires > now
    && Usable(s.users, g.user)
    && ProtocolEnabled(protocol, g, s.users[g.user])
  }

  /** The rows `cleanup_expired_records` deletes. */
  predicate Expirable(cfg: Config, g: Grant, now: int) {
    var cutoff := now - EXPIRED_GRANT_RETENTION;
    || (g.refreshExpires.None? && g.accessExpires <= cutoff)
    || (g.refreshExpires.Some? && g.refreshExpires.value <= cutoff)
    || (g.lastRefresh.Some? && g.lastRefresh.value <= cutoff - cfg.idle)
  }

  /** The mark the token list puts on a grant whose app has to sign in again. */
  predicate NeedsReauthentication(cfg: Config, g: Grant, now: int) {
    if g.refreshExpires.None? then g.accessExpires <= now
    else
      || g.refreshExpires.value <= now
      || LastUse(cfg, g).None?
      || LastUse(cfg, g).value + cfg.idle <= now
  }

  function Forced(g: Grant, now: int): Grant {
    g.(accessExpires := Min(g.accessExpires, now),
       refreshExpires := if g.refreshExpires.Some? then Some(Min(g.refreshExpires.value, now)) else None)
  }

  // ---- one request ----

  /** New codes and grant ids come from the system's random source and may be any; the database refuses
      one that is still in its table. */
  datatype Request =
    | Approve(resourceOwner: Email, wanted: set<Scope>, redirect: string, challenge: string, newCode: CodeId)
    | Redeem(code: CodeId, redirectBack: string, computed: string, newGrant: GrantId)
    | UseRefresh(token: Option<Token>)
    | Introspect(bearer: Option<Token>, protocol: Option<Protocol>)
    | Revoke(revoked: Option<Token>)
    | RevokeOnPage(row: GrantId)
    | Reauthenticate(row: GrantId)
    | ChangePassword(owner: Email)
    | Cleanup
    | SetUser(account: Email, settings: User)
    | DeleteUser(account: Email)

  function Cleaned(cfg: Config, s: State, now: int): State {
    s.(codes := map c | c in s.codes && s.codes[c].expires > now :: s.codes[c],
       grants := map id | id in s.grants && !Expirable(cfg, s.grants[id], now) :: s.grants[id])
  }

  function DropGrant(s: State, id: GrantId): State {
    s.(grants := s.grants - {id})
  }

  /** Approval of a consent page; the code is stored after a cleanup. */
  function DoApprove(cfg: Config, s: State, now: int, r: Request): (State, Answer)
    requires r.Approve?
  {
    if !Usable(s.users, r.resourceOwner) then (s, Denied)
    else
      var t := Cleaned(cfg, s, now);
      var code := Code(r.resourceOwner, r.wanted, r.redirect, r.challenge, now + AUTHORIZATION_CODE_TTL);
      if r.newCode in t.codes then (t, Failure)
      else (t.(codes := t.codes[r.newCode := code], codesIssued := t.codesIssued + {r.newCode}), Done)
  }

  /** `token` with an authorization code. */
  function DoRedeem(cfg: Config, s: State, now: int, r: Request): (State, Answer)
    requires r.Redeem?
  {
    if r.code !in s.codes then (s, InvalidGrant)
    else
      var code := s.codes[r.code];
      if code.expires <= now || code.redirect != r.redirectBack || code.challenge != r.computed then (s, InvalidGrant)
      else
        var t := s.(codes := s.codes - {r.code});
        if !Usable(s.users, code.user) then (t, InvalidGrant)
        else if r.newGrant in s.grants then (s, Failure)
        else
          var g := NewGrant(cfg, now, code.user, code.scope);
          (t.(grants := t.grants[r.newGrant := g], issued := t.issued[r.newGrant := Issue(code.user, now)]),
           TokenResponse(r.newGrant, g, now))
  }

  /** `token` with a refresh token: rotation, replay detection and expiry. */
  function DoRefresh(cfg: Config, s: State, now: int, token: Option<Token>): (State, Answer) {
    if token.None? || token.value.kind.Access? || token.value.grant !in s.grants then (s, InvalidGrant)
    else
      var id := token.value.grant;
      var g := s.grants[id];
      if token.value.generation < g.generation then (DropGrant(s, id), InvalidGrant)
      else if token.value.generation != g.generation then (s, InvalidGrant)
      else if RefreshExpired(cfg, g, now) then (DropGrant(s, id), InvalidGrant)
      else if !Usable(s.users, g.user) then (DropGrant(s, id), InvalidGrant)
      else
        var h := Rotated(cfg, now, g);
        (s.(grants := s.grants[id := h]), TokenResponse(id, h, now))
  }

  function DoIntrospect(s: State, now: int, token: Option<Token>, protocol: Option<Protocol>): Answer {
    if Accepted(s, now, token, protocol) then
      var g := s.grants[token.value.grant];
      Active(g.user, g.scope, g.accessExpires)
    else Inactive
  }

  function ForceUser(s: State, owner: Email, now: int): State {
    s.(grants := map id | id in s.grants ::
         if s.grants[id].user == owner then Forced(s.grants[id], now) else s.grants[id])
  }

  /** Deleting an account takes its grants and codes along. */
  function WithoutUser(s: State, account: Email): State {
    s.(users := s.users - {account},
       grants := map id | id in s.grants && s.grants[id].user != account :: s.grants[id],
       codes := map c | c in s.codes && s.codes[c].user != account :: s.codes[c])
  }

  function Step(cfg: Config, s: State, now: int, r: Request): (State, Answer) {
    match r
    case Approve(_, _, _, _, _) => DoApprove(cfg, s, now, r)
    case Redeem(_, _, _, _) => DoRedeem(cfg, s, now, r)
    case UseRefresh(token) => DoRefresh(cfg, s, now, token)
    case Introspect(token, protocol) => (s, DoIntrospect(s, now, token, protocol))
    case Revoke(token) => (if token.Some? then DropGrant(s, token.value.grant) else s, Done)
    case RevokeOnPage(row) => (DropGrant(s, row), if row in s.grants then Done else NotFound)
    case Reauthenticate(row) =>
      if row in s.grants then (s.(grants := s.grants[row := Forced(s.grants[row], now)]), Done) else (s, NotFound)
    case ChangePassword(owner) => (ForceUser(s, owner, now), Done)
    case Cleanup => (Cleaned(cfg, s, now), Done)
    case SetUser(account, settings) => (s.(users := s.users[account := settings]), Done)
    case DeleteUser(account) => (WithoutUser(s, account), Done)
  }

  // ---- runs ----

  datatype Event = Event(now: int, request: Request)

  function Run(cfg: Config, s: State, trace: seq<Event>): State {
    if trace == [] then s
    else
      var e := trace[|trace| - 1];
      Step(cfg, Run(cfg, s, trace[..|trace| - 1]), e.now, e.request).0
  }

  /** The answer to request `i` of a run. */
  function AnswerAt(cfg: Config, s: State, trace: seq<Event>, i: nat): Answer
    requires i < |trace|
  {
    Step(cfg, Run(cfg, s, trace[..i]), trace[i].now, trace[i].request).1
  }

  ghost predicate ClockForward(trace: seq<Event>) {
    forall i, j :: 0 <= i <= j < |trace| ==> trace[i].now <= trace[j].now
  }

  /** The request draws neither a code nor a grant id that was ever handed out. */
  predicate DrawsFresh(s: State, r: Request) {
    && (r.Approve? ==> r.newCode !in s.codesIssued)
    && (r.Redeem? ==> r.newGrant !in s.issued)
  }

  predicate DrawApart(q: Request, r: Request) {
    && !(q.Approve? && r.Approve? && q.newCode == r.newCode)
    && !(q.Redeem? && r.Redeem? && q.newGrant == r.newGrant)
  }

  /** The random source never repeats itself: all draws of a run differ from each other and from those
      before it. */
  ghost predicate FreshDraws(s: State, trace: seq<Event>) {
    && (forall i :: 0 <= i < |trace| ==> DrawsFresh(s, trace[i].request))
    && (forall i, j :: 0 <= i < j < |trace| ==> DrawApart(trace[i].request, trace[j].request))
  }

  /** A server before its first approval. */
  function Fresh(users: map<Email, User>): State {
    State(map[], map[], users, map[], {})
  }

  /** The account of the runs given as examples. */
  const ONE_USER: map<Email, User> := map["user" := User(true, true, true)]
}
