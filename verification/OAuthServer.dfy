/** The endpoints as they update the grant and code tables, each tied to `OAuthGrants.Step`. A request
    locks the rows it works on, so a method body is one atomic step. */
module OAuthServer {
  import opened OAuthGrants
  import opened Options

  class Server {
    const cfg: Config
    var grants: map<GrantId, Grant>
    var codes: map<CodeId, Code>
    var users: map<Email, User>
    ghost var issued: map<GrantId, Issue>
    ghost var codesIssued: set<CodeId>

    ghost function Model(): State
      reads this
    {
      State(grants, codes, users, issued, codesIssued)
    }

    constructor (cfg: Config, users: map<Email, User>)
      ensures Model() == Fresh(users) && this.cfg == cfg
    {
      this.cfg := cfg;
      this.users := users;
      grants, codes, issued, codesIssued := map[], map[], map[], {};
    }

    method CleanupExpiredRecords(now: int) returns (removedCodes: int, removedGrants: int)
      modifies `grants, `codes
      ensures Model() == Step(cfg, old(Model()), now, Cleanup).0
      ensures removedCodes == |old(codes)| - |codes| && removedGrants == |old(grants)| - |grants|
    {
      var retentionCutoff := now - EXPIRED_GRANT_RETENTION;
      var idleCutoff := retentionCutoff - cfg.idle;
      var keptCodes := map c | c in codes && !(codes[c].expires <= now) :: codes[c];
      var keptGrants := map id | id in grants && !(
          || (grants[id].refreshExpires.None? && grants[id].accessExpires <= retentionCutoff)
          || (grants[id].refreshExpires.Some? && grants[id].refreshExpires.value <= retentionCutoff)
          || (grants[id].lastRefresh.Some? && grants[id].lastRefresh.value <= idleCutoff)) :: grants[id];
      assert keptCodes == Cleaned(cfg, Model(), now).codes;
      assert keptGrants == Cleaned(cfg, Model(), now).grants;
      removedCodes := |codes| - |keptCodes|;
      removedGrants := |grants| - |keptGrants|;
      codes, grants := keptCodes, keptGrants;
    }

    /** `authorize`, once the signed-in user has approved the scopes. */
    method Approve(now: int, owner: Email, scope: set<Scope>, redirect: string, challenge: string, newCode: CodeId)
      returns (answer: Answer)
      modifies `grants, `codes, `codesIssued
      ensures (Model(), answer)
           == Step(cfg, old(Model()), now, Request.Approve(owner, scope, redirect, challenge, newCode))
    {
      if owner !in users || !users[owner].enabled {
        return Denied;
      }
      var _, _ := CleanupExpiredRecords(now);
      if newCode in codes {
        return Failure;
      }
      codes := codes[newCode := Code(owner, scope, redirect, challenge, now + AUTHORIZATION_CODE_TTL)];
      codesIssued := codesIssued + {newCode};
      answer := Done;
    }

    /** `_issue_tokens`: a new grant when `existing` is `None`, else the one whose generation the
        caller has just advanced. */
    method IssueTokens(now: int, owner: Email, scope: set<Scope>, existing: Option<GrantId>, newGrant: GrantId)
      returns (answer: Answer)
      requires existing.Some? ==> existing.value in grants && grants[existing.value].refreshExpires.Some?
                                  && grants[existing.value].scope == scope
      modifies `grants
      ensures var id := if existing.Some? then existing.value else newGrant;
              var g := if existing.Some? then Renewed(cfg, now, old(grants)[id]) else NewGrant(cfg, now, owner, scope);
              grants == old(grants)[id := g] && answer == TokenResponse(id, g, now)
    {
      var offline := OfflineAccess in scope;
      var id, grant;
      if existing.None? {
        id := newGrant;
        grant := Grant(owner, scope, 0, now + cfg.accessTtl, None, None);
        grant := grant.(lastRefresh := Some(now),
                        refreshExpires := if offline then Some(now + cfg.refreshTtl) else None);
      } else {
        id := existing.value;
        grant := grants[id].(lastRefresh := Some(now));
      }
      var access := Token(Access, id, grant.generation);
      var refresh := if offline then Some(Token(Refresh, id, grant.generation)) else None;
      var accessExpires := now + cfg.accessTtl;
      if refresh.Some? {
        accessExpires := Min(accessExpires, Min(grant.refreshExpires.value, grant.lastRefresh.value + cfg.idle));
      }
      grant := grant.(scope := scope, accessExpires := accessExpires);
      grants := grants[id := grant];
      answer := Tokens(access, refresh, Max(0, accessExpires - now), scope);
    }

    /** `token` with `grant_type=authorization_code`. */
    method RedeemCode(now: int, code: CodeId, redirect: string, computed: string, newGrant: GrantId)
      returns (answer: Answer)
      modifies `grants, `codes, `issued
      ensures (Model(), answer) == Step(cfg, old(Model()), now, Redeem(code, redirect, computed, newGrant))
    {
      if code !in codes {
        return InvalidGrant;
      }
      var record := codes[code];
      if !(record.expires > now && record.redirect == redirect && record.challenge == computed) {
        return InvalidGrant;
      }
      if record.user !in users || !users[record.user].enabled {
        codes := codes - {code};
        return InvalidGrant;
      }
      if newGrant in grants {
        // the insertion is refused, and the deletion of the code rolled back with it
        return Failure;
      }
      codes := codes - {code};
      answer := IssueTokens(now, record.user, record.scope, None, newGrant);
      issued := issued[newGrant := Issue(record.user, now)];
    }

    /** `token` with `grant_type=refresh_token`. */
    method RefreshGrant(now: int, token: Option<Token>) returns (answer: Answer)
      modifies `grants
      ensures (Model(), answer) == Step(cfg, old(Model()), now, UseRefresh(token))
    {
      if token.None? || token.value.kind != Refresh || token.value.grant !in grants {
        return InvalidGrant;
      }
      var Token(_, id, generation) := token.value;
      var grant := grants[id];
      if generation < grant.generation {
        grants := grants - {id};
        return InvalidGrant;
      }
      if generation != grant.generation {
        return InvalidGrant;
      }
      var lastUse := grant.lastRefresh;
      if lastUse.None? && grant.refreshExpires.Some? {
        lastUse := Some(grant.refreshExpires.value - cfg.refreshTtl);
      }
      var expired :=
        if grant.refreshExpires.None? then true
        else if grant.refreshExpires.value <= now then true
        else if lastUse.None? then true
        else lastUse.value + cfg.idle <= now;
      if expired || grant.user !in users || !users[grant.user].enabled {
        grants := grants - {id};
        return InvalidGrant;
      }
      grants := grants[id := grant.(generation := grant.generation + 1)];
      answer := IssueTokens(now, grant.user, grant.scope, Some(id), id);
      assert grants == old(grants)[id := Rotated(cfg, now, old(grants)[id])];
    }

    /** `revoke`: either token of a grant removes the grant. */
    method RevokeToken(now: int, token: Option<Token>)
      modifies `grants
      ensures Model() == Step(cfg, old(Model()), now, Revoke(token)).0
    {
      assert token.Some? && token.value.grant !in grants ==> grants - {token.value.grant} == grants;
      if token.Some? && token.value.grant in grants {
        grants := grants - {token.value.grant};
      }
    }

    method ForceReauthentication(id: GrantId, now: int)
      requires id in grants
      modifies `grants
      ensures grants == old(grants)[id := Forced(old(grants)[id], now)]
    {
      var grant := grants[id];
      grant := grant.(accessExpires := Min(grant.accessExpires, now));
      if grant.refreshExpires.Some? {
        grant := grant.(refreshExpires := Some(Min(grant.refreshExpires.value, now)));
      }
      grants := grants[id := grant];
    }

    /** `force_user_reauthentication`: every grant of the user, one after the other. */
    method ForceUserReauthentication(owner: Email, now: int)
      modifies `grants
      ensures Model() == Step(cfg, old(Model()), now, ChangePassword(owner)).0
    {
      var todo := set id | id in grants && grants[id].user == owner;
      ghost var mine := todo;
      while todo != {}
        invariant todo <= mine && grants.Keys == old(grants).Keys
        invariant forall id :: id in grants ==>
                    grants[id] == if id in mine - todo then Forced(old(grants)[id], now) else old(grants)[id]
      {
        var id :| id in todo;
        ForceReauthentication(id, now);
        todo := todo - {id};
      }
    }

    /** `oauth2_introspect`. */
    method IntrospectToken(now: int, token: Option<Token>, protocol: Option<Protocol>) returns (answer: Answer)
      ensures answer == Step(cfg, Model(), now, Introspect(token, protocol)).1
    {
      if token.None? || token.value.kind != Access || token.value.grant !in grants {
        return Inactive;
      }
      var grant := grants[token.value.grant];
      if token.value.generation != grant.generation || grant.accessExpires <= now
         || grant.user !in users || !users[grant.user].enabled {
        return Inactive;
      }
      var user := users[grant.user];
      if protocol.Some? {
        var required := RequiredScope(protocol.value);
        if required.None? || required.value !in grant.scope
           || (protocol.value.ImapLogin? && !user.enableImap)
           || (protocol.value.Pop3Login? && !user.enablePop) {
          return Inactive;
        }
      }
      answer := Active(grant.user, grant.scope, grant.accessExpires);
    }

    /** `oauth2_token_list`: the grants of a user whose app has to sign in again. */
    method ExpiredGrants(owner: Email, now: int) returns (expired: set<GrantId>)
      ensures expired
           == set id | id in grants && grants[id].user == owner && NeedsReauthentication(cfg, grants[id], now)
    {
      expired := {};
      var todo := set id | id in grants && grants[id].user == owner;
      ghost var mine := todo;
      while todo != {}
        invariant todo <= mine
        invariant expired == set id | id in mine - todo && NeedsReauthentication(cfg, grants[id], now)
      {
        var id :| id in todo;
        var grant := grants[id];
        var needs;
        if grant.refreshExpires.None? {
          needs := grant.accessExpires <= now;
        } else {
          var lastUse := grant.lastRefresh;
          if lastUse.None? {
            lastUse := Some(grant.refreshExpires.value - cfg.refreshTtl);
          }
          needs := grant.refreshExpires.value <= now || lastUse.value + cfg.idle <= now;
        }
        if needs {
          expired := expired + {id};
        }
        todo := todo - {id};
      }
    }
  }
}
