/** Keeping the sender identities of a webmail account in step with the user's aliases. Addresses are
    in the form the plugin compares: ASCII domain, lower case. */
module Identities {
  import opened Options

  type Email = string

  datatype Identity = Identity(email: Email, standard: bool)

  /** What the outside makes of a request to delete or insert an identity. The hook may veto a new
      identity or change its address. */
  datatype Outside = Outside(deletes: Email -> bool, hook: Email -> Option<Email>, inserts: Email -> bool)

  function Emails(identities: map<nat, Identity>): set<Email> {
    set i | i in identities :: identities[i].email
  }

  ghost predicate Unique(identities: map<nat, Identity>) {
    forall i, j :: i in identities && j in identities && identities[i].email == identities[j].email ==> i == j
  }

  /** The addresses of default identities. */
  function Defaults(identities: map<nat, Identity>): set<Email> {
    set i | i in identities && identities[i].standard :: identities[i].email
  }

  function Aliases(header: seq<Email>): set<Email> {
    set e | e in header && e != "" && '@' in e
  }

  // ---- the effect of one sync ----

  /** Managed identities that are no longer aliases and can be deleted. */
  function Removed(emails: set<Email>, defaults: set<Email>, managed: set<Email>, aliases: set<Email>, o: Outside)
    : set<Email>
  {
    set e | e in managed && e !in aliases && e in emails && e !in defaults && o.deletes(e)
  }

  predicate Inserts(o: Outside, e: Email) {
    o.hook(e).Some? && o.hook(e).value != "" && o.inserts(o.hook(e).value)
  }

  /** The addresses of the identities that are inserted. */
  function Added(emails: set<Email>, aliases: set<Email>, o: Outside): set<Email> {
    set e | e in aliases && e !in emails && Inserts(o, e) :: o.hook(e).value
  }

  function NewEmails(emails: set<Email>, defaults: set<Email>, managed: set<Email>, aliases: set<Email>, o: Outside)
    : set<Email>
  {
    emails - Removed(emails, defaults, managed, aliases, o) + Added(emails, aliases, o)
  }

  function NewManaged(emails: set<Email>, defaults: set<Email>, managed: set<Email>, aliases: set<Email>, o: Outside)
    : set<Email>
  {
    managed * emails - Removed(emails, defaults, managed, aliases, o) + Added(emails, aliases, o)
  }

  /** An entry of the header counts if it has an '@'. */
  lemma HeaderEntriesThatCount(header: seq<Email>, e: Email)
    ensures e in Aliases(header) <==> e in header && '@' in e
  {
  }

  /** An identity is made for `e`: the hook turns an alias without identity into it, and it can be
      inserted. */
  ghost predicate IsMade(emails: set<Email>, aliases: set<Email>, o: Outside, e: Email) {
    e != "" && o.inserts(e) && exists a :: a in aliases && a !in emails && o.hook(a) == Some(e)
  }

  /** Which addresses have an identity after a sync, and which of them are managed. */
  lemma AfterSync(emails: set<Email>, defaults: set<Email>, managed: set<Email>, aliases: set<Email>, o: Outside,
                  e: Email)
    ensures var goes := e in managed && e !in aliases && e !in defaults && o.deletes(e);
            && (e in NewEmails(emails, defaults, managed, aliases, o) <==>
                  (e in emails && !goes) || IsMade(emails, aliases, o, e))
            && (e in NewManaged(emails, defaults, managed, aliases, o) <==>
                  (e in emails && e in managed && !goes) || IsMade(emails, aliases, o, e))
  {
    assert IsMade(emails, aliases, o, e) <==> e in Added(emails, aliases, o);
  }

  /** A sync never deletes an identity that is not recorded as managed, nor an alias or a default
      identity, and what it records as managed exists. */
  lemma SyncIsSafe(emails: set<Email>, defaults: set<Email>, managed: set<Email>, aliases: set<Email>, o: Outside)
    ensures var after := NewEmails(emails, defaults, managed, aliases, o);
            && (forall e :: e in emails && (e !in managed || e in aliases || e in defaults) ==> e in after)
            && NewManaged(emails, defaults, managed, aliases, o) <= after
  {
  }

  /** An identity whose deletion failed stays managed, so that the next sync tries again. */
  lemma FailedDeleteIsRetried(emails: set<Email>, defaults: set<Email>, managed: set<Email>, aliases: set<Email>,
                              first: Outside, second: Outside, e: Email)
    requires e in managed && e in emails && e !in aliases && e !in defaults && !first.deletes(e) && second.deletes(e)
    requires forall a :: a in aliases && a !in emails && Inserts(first, a) ==> first.hook(a).value != e
    requires forall a :: a in aliases && Inserts(second, a) ==> second.hook(a).value != e
    ensures var emails1 := NewEmails(emails, defaults, managed, aliases, first);
            var managed1 := NewManaged(emails, defaults, managed, aliases, first);
            && e in emails1 && e in managed1
            && e !in NewEmails(emails1, defaults, managed1, aliases, second)
  {
  }

  /** Everything succeeds and the hook leaves addresses alone. */
  ghost predicate Cooperates(o: Outside) {
    forall e :: e != "" ==> o.deletes(e) && o.hook(e) == Some(e) && o.inserts(e)
  }

  /** With a cooperating outside and no default identity among the obsolete ones, the identities become
      the old ones without the obsolete managed ones, with all aliases; a second sync changes nothing. */
  lemma SyncConverges(emails: set<Email>, defaults: set<Email>, managed: set<Email>, aliases: set<Email>, o: Outside)
    requires Cooperates(o) && "" !in aliases && "" !in managed
    requires forall e :: e in managed && e !in aliases ==> e !in defaults
    ensures var emails1 := NewEmails(emails, defaults, managed, aliases, o);
            var managed1 := NewManaged(emails, defaults, managed, aliases, o);
            && emails1 == emails - (managed - aliases) + aliases
            && managed1 == managed * emails * aliases + (aliases - emails)
            && NewEmails(emails1, defaults, managed1, aliases, o) == emails1
            && NewManaged(emails1, defaults, managed1, aliases, o) == managed1
  {
    assert Added(emails, aliases, o) == aliases - emails;
    assert Removed(emails, defaults, managed, aliases, o) == (managed - aliases) * emails;
    var emails1 := NewEmails(emails, defaults, managed, aliases, o);
    var managed1 := NewManaged(emails, defaults, managed, aliases, o);
    assert managed1 <= aliases;
    assert Added(emails1, aliases, o) == {};
    assert Removed(emails1, defaults, managed1, aliases, o) == {};
  }

  // ---- many syncs, with the user at work in between ----

  datatype Change =
    | Sync(defaults: set<Email>, aliases: set<Email>, outside: Outside)
    | Creates(email: Email)
    | Deletes(email: Email)

  /** An account: the addresses of its identities and the managed ones. */
  datatype Book = Book(emails: set<Email>, managed: set<Email>)

  function After(b: Book, c: Change): Book {
    match c
    case Sync(defaults, aliases, o) =>
      Book(NewEmails(b.emails, defaults, b.managed, aliases, o), NewManaged(b.emails, defaults, b.managed, aliases, o))
    case Creates(e) => b.(emails := b.emails + {e})
    case Deletes(e) => b.(emails := b.emails - {e})
  }

  function AfterAll(b: Book, changes: seq<Change>): Book {
    if changes == [] then b else After(AfterAll(b, changes[..|changes| - 1]), changes[|changes| - 1])
  }

  /** The user does not delete `e`, and no hook turns another address into it. */
  ghost predicate Spares(c: Change, e: Email) {
    match c
    case Sync(_, aliases, o) => forall a :: a in aliases && a != e ==> o.hook(a) != Some(e)
    case Creates(_) => true
    case Deletes(x) => x != e
  }

  /** An identity the user created is never claimed and never deleted, whatever aliases come and go. */
  lemma {:induction false} OwnIdentitiesSurvive(b: Book, changes: seq<Change>, e: Email)
    requires e in b.emails && e !in b.managed
    requires forall c :: c in changes ==> Spares(c, e)
    ensures e in AfterAll(b, changes).emails && e !in AfterAll(b, changes).managed
  {
    if changes != [] {
      var k := |changes| - 1;
      OwnIdentitiesSurvive(b, changes[..k], e);
      assert Spares(changes[k], e);
    }
  }

  /** Change `i` is a sync that inserted `e`. */
  ghost predicate InsertedAt(b: Book, changes: seq<Change>, i: nat, e: Email)
    requires i < |changes|
  {
    changes[i].Sync? && e in Added(AfterAll(b, changes[..i]).emails, changes[i].aliases, changes[i].outside)
  }

  lemma {:induction false} ManagedWereInserted(b: Book, changes: seq<Change>, n: nat, e: Email) returns (i: nat)
    requires b.managed == {} && n <= |changes| && e in AfterAll(b, changes[..n]).managed
    ensures i < n && InsertedAt(b, changes, i, e)
  {
    assert n > 0;
    var k := n - 1;
    assert changes[..n][..k] == changes[..k];
    if e in AfterAll(b, changes[..k]).managed {
      i := ManagedWereInserted(b, changes, k, e);
    } else {
      i := k;
    }
  }

  /** What a sync takes away, an earlier sync has put there. */
  lemma DeletedWereInserted(b: Book, changes: seq<Change>, j: nat, e: Email) returns (i: nat)
    requires b.managed == {} && j < |changes| && changes[j].Sync?
    requires e in AfterAll(b, changes[..j]).emails && e !in AfterAll(b, changes[..j + 1]).emails
    ensures i < j && InsertedAt(b, changes, i, e)
  {
    assert changes[..j + 1][..j] == changes[..j];
    i := ManagedWereInserted(b, changes, j, e);
  }

  // ---- one identity at a time ----

  lemma EmailsInsert(identities: map<nat, Identity>, i: nat, x: Identity)
    requires i !in identities
    ensures Emails(identities[i := x]) == Emails(identities) + {x.email}
    ensures Unique(identities) && x.email !in Emails(identities) ==> Unique(identities[i := x])
  {
    var more := identities[i := x];
    assert more[i] == x;
    forall e | e in Emails(identities)
      ensures e in Emails(more)
    {
      var j :| j in identities && identities[j].email == e;
      assert more[j] == identities[j];
    }
  }

  /** `identities_by_email`: each address leads to the identity that has it, or to one of them. */
  ghost predicate Indexes(byEmail: map<Email, nat>, identities: map<nat, Identity>) {
    && byEmail.Keys == Emails(identities)
    && forall e :: e in byEmail ==> byEmail[e] in identities && identities[byEmail[e]].email == e
  }

  /** The addresses that lead to a default identity. */
  function DefaultsOf(byEmail: map<Email, nat>, identities: map<nat, Identity>): set<Email> {
    set e | e in byEmail && byEmail[e] in identities && identities[byEmail[e]].standard
  }

  /** The identities without those some addresses lead to. */
  function Without(identities: map<nat, Identity>, byEmail: map<Email, nat>, gone: set<Email>): map<nat, Identity> {
    map i | i in identities
            && !(identities[i].email in gone && identities[i].email in byEmail && byEmail[identities[i].email] == i)
      :: identities[i]
  }

  lemma WithoutStep(identities: map<nat, Identity>, byEmail: map<Email, nat>, gone: set<Email>, e: Email)
    requires Indexes(byEmail, identities) && e in byEmail && e !in gone
    ensures byEmail[e] in Without(identities, byEmail, gone)
    ensures Without(identities, byEmail, gone)[byEmail[e]] == identities[byEmail[e]]
    ensures Without(identities, byEmail, gone + {e}) == Without(identities, byEmail, gone) - {byEmail[e]}
  {
  }

  /** When addresses are unique, the index leaves no choice. */
  lemma UniqueWithout(identities: map<nat, Identity>, byEmail: map<Email, nat>, gone: set<Email>)
    requires Unique(identities) && Indexes(byEmail, identities)
    ensures DefaultsOf(byEmail, identities) == Defaults(identities)
    ensures Emails(Without(identities, byEmail, gone)) == Emails(identities) - gone
    ensures Unique(Without(identities, byEmail, gone))
  {
    var less := Without(identities, byEmail, gone);
    forall e | e in Defaults(identities)
      ensures e in DefaultsOf(byEmail, identities)
    {
      var i :| i in identities && identities[i].standard && identities[i].email == e;
      assert e in Emails(identities) && byEmail[e] == i;
    }
    forall e | e in Emails(identities) - gone
      ensures e in Emails(less)
    {
      assert less[byEmail[e]] == identities[byEmail[e]];
    }
  }

  lemma RemovedStep(emails: set<Email>, defaults: set<Email>, done: set<Email>, e: Email, aliases: set<Email>,
                    o: Outside)
    ensures Removed(emails, defaults, done + {e}, aliases, o) ==
            Removed(emails, defaults, done, aliases, o) +
            (if e !in aliases && e in emails && e !in defaults && o.deletes(e) then {e} else {})
  {
  }

  lemma AddedStep(emails: set<Email>, done: set<Email>, e: Email, o: Outside)
    ensures Added(emails, done + {e}, o) ==
            Added(emails, done, o) + (if e !in emails && Inserts(o, e) then {o.hook(e).value} else {})
  {
  }

  // ---- the account ----

  class Account {
    var identities: map<nat, Identity>
    var next: nat
    /** The preference `mailu_alias_identities`. */
    var managed: set<Email>

    ghost predicate Valid()
      reads this
    {
      forall i :: i in identities ==> i < next
    }

    constructor (identities: map<nat, Identity>, next: nat, managed: set<Email>)
      requires forall i :: i in identities ==> i < next
      ensures Valid() && this.identities == identities && this.managed == managed
    {
      this.identities, this.next, this.managed := identities, next, managed;
    }

    /** `sync_identities`. Should two identities share an address, `byEmail` has the one that was listed
        last. */
    method SyncIdentities(complete: bool, header: seq<Email>, o: Outside) returns (ghost byEmail: map<Email, nat>)
      requires Valid()
      modifies this
      ensures Valid()
      ensures !complete ==> identities == old(identities) && managed == old(managed)
      ensures complete ==>
                && Indexes(byEmail, old(identities))
                && var e, d := Emails(old(identities)), DefaultsOf(byEmail, old(identities));
                && var rest := Without(old(identities), byEmail, Removed(e, d, old(managed), Aliases(header), o));
                && managed == NewManaged(e, d, old(managed), Aliases(header), o)
                && Emails(identities) == Emails(rest) + Added(e, Aliases(header), o)
                && forall i :: i in old(identities) ==> (i in identities <==> i in rest)
      ensures complete && Unique(old(identities)) ==>
                var e, d := Emails(old(identities)), Defaults(old(identities));
                && Emails(identities) == NewEmails(e, d, old(managed), Aliases(header), o)
                && managed == NewManaged(e, d, old(managed), Aliases(header), o)
      ensures Untouched(old(identities), identities, old(next))
      ensures forall i :: i in old(identities) && old(identities)[i].email !in old(managed) ==> i in identities
      ensures Faithful(o) && Unique(old(identities)) ==> Unique(identities)
    {
      byEmail := map[];
      if !complete {
        return;
      }
      var aliases := Aliases(header);
      var index := IndexByEmail();
      byEmail := index;
      var kept := DropObsolete(aliases, o, index);
      var inserted := InsertMissing(aliases, o, index.Keys);
      if Unique(old(identities)) {
        var gone := Removed(index.Keys, DefaultsOf(index, old(identities)), managed, aliases, o);
        UniqueWithout(old(identities), index, gone);
      }
      managed := kept + inserted;
    }

    method IndexByEmail() returns (byEmail: map<Email, nat>)
      ensures Indexes(byEmail, identities)
    {
      byEmail := map[];
      var todo := identities.Keys;
      while todo != {}
        invariant todo <= identities.Keys
        invariant forall e :: e in byEmail ==> byEmail[e] in identities && identities[byEmail[e]].email == e
        invariant forall i :: i in identities && i !in todo ==> identities[i].email in byEmail
      {
        var i :| i in todo;
        byEmail := byEmail[identities[i].email := i];
        todo := todo - {i};
      }
    }

    /** The loop over the addresses managed so far. */
    method DropObsolete(aliases: set<Email>, o: Outside, byEmail: map<Email, nat>) returns (kept: set<Email>)
      requires Valid() && Indexes(byEmail, identities)
      modifies `identities
      ensures Valid()
      ensures var e, d := byEmail.Keys, DefaultsOf(byEmail, old(identities));
              var gone := Removed(e, d, managed, aliases, o);
              identities == Without(old(identities), byEmail, gone) && kept == managed * e - gone
    {
      kept := {};
      var todo := managed;
      ghost var before, done: set<Email> := identities, {};
      ghost var emails, defaults := byEmail.Keys, DefaultsOf(byEmail, before);
      assert Without(before, byEmail, {}) == before;
      while todo != {}
        invariant done + todo == managed && done * todo == {}
        invariant identities == Without(before, byEmail, Removed(emails, defaults, done, aliases, o))
        invariant kept == done * emails - Removed(emails, defaults, done, aliases, o)
      {
        var e :| e in todo;
        RemovedStep(emails, defaults, done, e, aliases, o);
        if e in byEmail {
          var i := byEmail[e];
          WithoutStep(before, byEmail, Removed(emails, defaults, done, aliases, o), e);
          if e in aliases || identities[i].standard || !o.deletes(e) {
            kept := kept + {e};
          } else {
            identities := identities - {i};
          }
        }
        todo := todo - {e};
        done := done + {e};
      }
      assert done == managed;
    }

    /** `insert_identity` */
    method Insert(e: Email)
      requires Valid()
      modifies `identities, `next
      ensures Valid() && next == old(next) + 1 && old(next) !in old(identities)
      ensures identities == old(identities)[old(next) := Identity(e, false)]
      ensures Emails(identities) == Emails(old(identities)) + {e}
      ensures Unique(old(identities)) && e !in Emails(old(identities)) ==> Unique(identities)
    {
      EmailsInsert(identities, next, Identity(e, false));
      identities := identities[next := Identity(e, false)];
      next := next + 1;
    }

    /** The loop over the aliases; `known` are the addresses that had an identity at the start. */
    method InsertMissing(aliases: set<Email>, o: Outside, known: set<Email>) returns (inserted: set<Email>)
      requires Valid() && Emails(identities) <= known
      modifies `identities, `next
      ensures Valid() && inserted == Added(known, aliases, o)
      ensures Emails(identities) == Emails(old(identities)) + inserted
      ensures Untouched(old(identities), identities, old(next))
              && forall i :: i in old(identities) ==> i in identities
      ensures Faithful(o) && Unique(old(identities)) ==> Unique(identities)
    {
      inserted := {};
      var todo := aliases;
      ghost var before, done: set<Email> := identities, {};
      while todo != {}
        invariant done + todo == aliases && done * todo == {} && Valid()
        invariant inserted == Added(known, done, o)
        invariant Emails(identities) == Emails(before) + inserted
        invariant old(next) <= next && Untouched(before, identities, old(next))
        invariant forall i :: i in before ==> i in identities
        invariant Faithful(o) && Unique(before) ==> Unique(identities)
      {
        var e :| e in todo;
        AddedStep(known, done, e, o);
        if e !in known {
          var record := o.hook(e);
          if record.Some? && record.value != "" && o.inserts(record.value) {
            assert Faithful(o) ==> e !in inserted;
            Insert(record.value);
            inserted := inserted + {record.value};
          }
        }
        todo := todo - {e};
        done := done + {e};
      }
      assert done == aliases;
    }
  }

  /** The hook leaves the addresses of inserted identities alone. */
  ghost predicate Faithful(o: Outside) {
    forall e :: Inserts(o, e) ==> o.hook(e) == Some(e)
  }

  /** Every identity is an old one as it was, or a new non-default one. */
  ghost predicate Untouched(before: map<nat, Identity>, after: map<nat, Identity>, next: nat) {
    forall i :: i in after ==> if i in before then after[i] == before[i] else i >= next && !after[i].standard
  }
}
