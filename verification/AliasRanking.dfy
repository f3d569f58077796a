/** Address resolution: the two ranked alias queries, the rule that combines them, and the order in
    which users and aliases are tried. */
module AliasRanking {
  import opened Options

  /** How the database and the program lower a character, which may give several. Lowering must leave
      the two wildcards alone and must not produce them. */
  type Lowering = char -> string

  ghost predicate KeepsWildcards(lower: Lowering) {
    && lower('%') == "%" && lower('_') == "_"
    && forall c :: c != '%' && c != '_' ==> lower(c) != "" && '%' !in lower(c) && '_' !in lower(c)
  }

  function Lowered(s: string, lower: Lowering): string {
    if s == "" then "" else lower(s[0]) + Lowered(s[1..], lower)
  }

  /** Every character of `s` lowers to one character. */
  predicate Narrow(s: string, lower: Lowering) {
    forall c :: c in s ==> |lower(c)| == 1
  }

  /** SQL `s LIKE p`. */
  predicate Like(s: string, p: string)
    decreases |s| + |p|
  {
    if p == [] then s == []
    else if p[0] == '%' then Like(s, p[1..]) || (s != [] && Like(s[1..], p))
    else s != [] && (p[0] == '_' || p[0] == s[0]) && Like(s[1..], p[1..])
  }

  /** LIKE by its pieces: what each pattern character takes, and that patterns match one after the other. */
  lemma LikeOne(s: string, c: char)
    ensures Like(s, "") <==> s == ""
    ensures Like(s, [c]) <==> c == '%' || (if c == '_' then |s| == 1 else s == [c])
  {
    assert [c][1..] == "";
    if c == '%' {
      PercentTakesAll(s);
      assert [c] == "%";
    } else if s != "" {
      assert s == [s[0]] + s[1..];
    }
  }

  lemma {:induction false} PercentTakesAll(s: string)
    ensures Like(s, "%")
  {
    assert "%"[1..] == "";
    if s != "" {
      PercentTakesAll(s[1..]);
    }
  }

  lemma {:induction false} LikeConcat(s: string, p: string, q: string)
    ensures Like(s, p + q) <==> exists k: nat :: k <= |s| && Like(s[..k], p) && Like(s[k..], q)
    decreases |s| + |p|
  {
    if Like(s, p + q) {
      var k := LikeCut(s, p, q);
    }
    forall k: nat | k <= |s| && Like(s[..k], p) && Like(s[k..], q)
      ensures Like(s, p + q)
    {
      LikeJoin(s[..k], s[k..], p, q);
      assert s == s[..k] + s[k..];
    }
  }

  lemma {:induction false} LikeCut(s: string, p: string, q: string) returns (k: nat)
    requires Like(s, p + q)
    ensures k <= |s| && Like(s[..k], p) && Like(s[k..], q)
    decreases |s| + |p|
  {
    if p == "" {
      assert p + q == q;
      k := 0;
    } else {
      assert (p + q)[1..] == p[1..] + q;
      if p[0] == '%' && Like(s, p[1..] + q) {
        k := LikeCut(s, p[1..], q);
      } else {
        k := LikeCut(s[1..], if p[0] == '%' then p else p[1..], q);
        assert s[..k + 1][1..] == s[1..][..k] && s[k + 1..] == s[1..][k..];
        k := k + 1;
      }
    }
  }

  lemma {:induction false} LikeJoin(s: string, t: string, p: string, q: string)
    requires Like(s, p) && Like(t, q)
    ensures Like(s + t, p + q)
    decreases |s| + |p|
  {
    if p == "" {
      assert s + t == t && p + q == q;
    } else {
      assert (p + q)[1..] == p[1..] + q;
      if s != "" {
        assert (s + t)[1..] == s[1..] + t;
      }
      if p[0] == '%' && Like(s, p[1..]) {
        LikeJoin(s, t, p[1..], q);
      } else {
        LikeJoin(s[1..], t, if p[0] == '%' then p else p[1..], q);
      }
    }
  }

  lemma {:induction false} LikeAfter(u: string, s: string, p: string)
    requires Like(s, p) && '%' !in u && '_' !in u
    ensures Like(u + s, u + p)
  {
    if u == "" {
      assert u + s == s && u + p == p;
    } else {
      LikeAfter(u[1..], s, p);
      assert (u + s)[1..] == u[1..] + s && (u + p)[1..] == u[1..] + p;
    }
  }

  lemma {:induction false} PercentTakes(u: string, s: string, p: string)
    requires Like(s, p) && p != "" && p[0] == '%'
    ensures Like(u + s, p)
  {
    if u == "" {
      assert u + s == s;
    } else {
      PercentTakes(u[1..], s, p);
      assert (u + s)[1..] == u[1..] + s;
    }
  }

  lemma UnderscoreTakes(u: string, s: string, p: string)
    requires Like(s, p) && |u| == 1
    ensures Like(u + s, "_" + p)
  {
    assert (u + s)[1..] == s && ("_" + p)[1..] == p;
  }

  /** A match survives lowering both sides, if every character lowers to one. */
  lemma {:induction false} LikeLowered(s: string, p: string, lower: Lowering)
    requires KeepsWildcards(lower) && Like(s, p) && Narrow(s, lower)
    ensures Like(Lowered(s, lower), Lowered(p, lower))
    decreases |s| + |p|
  {
    if p == [] {
    } else if p[0] == '%' {
      var q := Lowered(p[1..], lower);
      assert Lowered(p, lower) == "%" + q && ("%" + q)[1..] == q;
      if Like(s, p[1..]) {
        LikeLowered(s, p[1..], lower);
      } else {
        LikeLowered(s[1..], p, lower);
        PercentTakes(lower(s[0]), Lowered(s[1..], lower), Lowered(p, lower));
      }
    } else {
      LikeLowered(s[1..], p[1..], lower);
      if p[0] == '_' {
        assert s[0] in s;
        UnderscoreTakes(lower(s[0]), Lowered(s[1..], lower), Lowered(p[1..], lower));
      } else {
        LikeAfter(lower(s[0]), Lowered(s[1..], lower), Lowered(p[1..], lower));
      }
    }
  }

  function Underscores(n: nat): string {
    if n == 0 then "" else "_" + Underscores(n - 1)
  }

  lemma {:induction false} LikeUnderscores(s: string, n: nat)
    ensures Like(s, Underscores(n)) <==> |s| == n
  {
    if n > 0 {
      assert Underscores(n)[1..] == Underscores(n - 1);
      if s != "" {
        LikeUnderscores(s[1..], n - 1);
      }
    }
  }

  lemma {:induction false} LoweredUnderscores(n: nat, lower: Lowering)
    requires KeepsWildcards(lower)
    ensures Lowered(Underscores(n), lower) == Underscores(n)
  {
    if n > 0 {
      assert Underscores(n)[1..] == Underscores(n - 1);
      LoweredUnderscores(n - 1, lower);
    }
  }

  lemma {:induction false} LoweredLength(s: string, lower: Lowering)
    requires KeepsWildcards(lower)
    ensures |Lowered(s, lower)| >= |s|
    ensures |Lowered(s, lower)| == |s| <==> Narrow(s, lower)
  {
    if s != "" {
      LoweredLength(s[1..], lower);
      assert |lower(s[0])| >= 1;
      assert forall c :: c in s <==> c == s[0] || c in s[1..];
    }
  }

  /** All matches of `s` survive lowering exactly when each of its characters lowers to one: a row of
      underscores finds any other string out. */
  lemma MatchesSurviveExactlyWhen(s: string, lower: Lowering)
    requires KeepsWildcards(lower)
    ensures Narrow(s, lower) <==> forall p :: Like(s, p) ==> Like(Lowered(s, lower), Lowered(p, lower))
  {
    if Narrow(s, lower) {
      forall p | Like(s, p)
        ensures Like(Lowered(s, lower), Lowered(p, lower))
      {
        LikeLowered(s, p, lower);
      }
    } else {
      WideMatchIsLost(s, lower);
    }
  }

  lemma WideMatchIsLost(s: string, lower: Lowering)
    requires KeepsWildcards(lower) && !Narrow(s, lower)
    ensures var p := Underscores(|s|); Like(s, p) && !Like(Lowered(s, lower), Lowered(p, lower))
  {
    LikeUnderscores(s, |s|);
    LoweredUnderscores(|s|, lower);
    LoweredLength(s, lower);
    LikeUnderscores(Lowered(s, lower), |s|);
  }

  /** Nothing is gained or lost by lowering when there is nothing to match. */
  lemma {:induction false} LikeEmpty(p: string, lower: Lowering)
    requires KeepsWildcards(lower)
    ensures Like([], Lowered(p, lower)) == Like([], p)
    ensures Like([], p) ==> Lowered(p, lower) == p
  {
    if p != [] {
      LikeEmpty(p[1..], lower);
      var q := Lowered(p[1..], lower);
      if p[0] == '%' {
        assert Lowered(p, lower) == "%" + q && ("%" + q)[1..] == q && p == "%" + p[1..];
      } else {
        assert Lowered(p, lower)[0] == lower(p[0])[0];
      }
    }
  }

  // ---- tables ----

  datatype Alias = Alias(
    localpart: string,
    domain: string,
    wildcard: bool,
    destination: seq<string>,
    owner: Option<string>,
    disabled: bool)

  datatype UserRow = UserRow(
    enabled: bool,
    forwardEnabled: bool,
    forwardKeep: bool,
    forwardDestination: seq<string>)

  datatype Tables = Tables(aliases: set<Alias>, users: map<string, UserRow>)

  /** Not disabled itself, and not owned by a disabled or missing user. */
  predicate InService(t: Tables, a: Alias, domain: string) {
    && a.domain == domain
    && !a.disabled
    && (a.owner.None? || (a.owner.value in t.users && t.users[a.owner.value].enabled))
  }

  // ---- the two queries; a missing local part is SQL NULL and matches nothing ----

  function SameCase(t: Tables, localpart: Option<string>, domain: string): set<Alias> {
    set a | a in t.aliases && localpart.Some? && InService(t, a, domain)
            && (if a.wildcard then Like(localpart.value, a.localpart) else a.localpart == localpart.value)
  }

  /** `localpart.lower() if localpart else None` */
  function LoweredKey(localpart: Option<string>, lower: Lowering): Option<string> {
    if localpart.Some? && localpart.value != "" then Some(Lowered(localpart.value, lower)) else None
  }

  function AnyCase(t: Tables, localpart: Option<string>, domain: string, lower: Lowering): set<Alias> {
    var key := LoweredKey(localpart, lower);
    set a | a in t.aliases && key.Some? && InService(t, a, domain)
            && var pattern := Lowered(a.localpart, lower);
            if a.wildcard then Like(key.value, pattern) else pattern == key.value
  }

  /** Strictly earlier in `ORDER BY wildcard, char_length(localpart) DESC`, for the local part as the
      query takes it. */
  predicate Before(a: Alias, b: Alias, text: string -> string) {
    || (!a.wildcard && b.wildcard)
    || (a.wildcard == b.wildcard && |text(a.localpart)| > |text(b.localpart)|)
  }

  /** A row the ordered query may return first; rows that tie may come in any order. */
  ghost predicate First(rows: set<Alias>, text: string -> string, r: Option<Alias>) {
    if r.None? then rows == {}
    else r.value in rows && forall a :: a in rows ==> !Before(a, r.value, text)
  }

  function AsIs(): string -> string {
    s => s
  }

  function InLower(lower: Lowering): string -> string {
    s => Lowered(s, lower)
  }

  /** What the two queries may return first. */
  ghost predicate FirstSame(t: Tables, localpart: Option<string>, domain: string, p: Option<Alias>) {
    First(SameCase(t, localpart, domain), AsIs(), p)
  }

  ghost predicate FirstAny(t: Tables, localpart: Option<string>, domain: string, lower: Lowering, l: Option<Alias>) {
    First(AnyCase(t, localpart, domain, lower), InLower(lower), l)
  }

  function Combined(sameCase: Option<Alias>, anyCase: Option<Alias>): Option<Alias> {
    if sameCase.Some? && anyCase.Some? then (if sameCase.value.wildcard then anyCase else sameCase)
    else if sameCase.Some? then sameCase
    else anyCase
  }

  /** `r` is a possible result of `Alias.resolve`. */
  ghost predicate Resolves(t: Tables, localpart: Option<string>, domain: string, lower: Lowering, r: Option<Alias>) {
    exists p, l ::
      FirstSame(t, localpart, domain, p) && FirstAny(t, localpart, domain, lower, l) && r == Combined(p, l)
  }

  // ---- the one ranking behind it ----

  predicate ExactMatch(t: Tables, a: Alias, localpart: string, domain: string) {
    a in t.aliases && InService(t, a, domain) && !a.wildcard && a.localpart == localpart
  }

  predicate FoldedMatch(t: Tables, a: Alias, localpart: string, domain: string, lower: Lowering) {
    a in t.aliases && InService(t, a, domain) && !a.wildcard && Lowered(a.localpart, lower) == Lowered(localpart, lower)
  }

  predicate SameCaseWildcard(t: Tables, a: Alias, localpart: string, domain: string) {
    a in t.aliases && InService(t, a, domain) && a.wildcard && Like(localpart, a.localpart)
  }

  predicate AnyCaseWildcard(t: Tables, a: Alias, localpart: string, domain: string, lower: Lowering) {
    && a in t.aliases && InService(t, a, domain) && a.wildcard
    && Like(Lowered(localpart, lower), Lowered(a.localpart, lower))
  }

  ghost predicate HasExact(t: Tables, localpart: string, domain: string) {
    exists a :: ExactMatch(t, a, localpart, domain)
  }

  ghost predicate HasFolded(t: Tables, localpart: string, domain: string, lower: Lowering) {
    exists a :: FoldedMatch(t, a, localpart, domain, lower)
  }

  ghost predicate HasAnyCaseWildcard(t: Tables, localpart: string, domain: string, lower: Lowering) {
    exists a :: AnyCaseWildcard(t, a, localpart, domain, lower)
  }

  ghost predicate HasWildcard(t: Tables, localpart: string, domain: string, lower: Lowering) {
    HasAnyCaseWildcard(t, localpart, domain, lower) || exists a :: SameCaseWildcard(t, a, localpart, domain)
  }

  /** `a` is an explicit alias of the best kind there is. */
  ghost predicate BestExplicit(t: Tables, localpart: string, domain: string, lower: Lowering, a: Alias) {
    if HasExact(t, localpart, domain) then ExactMatch(t, a, localpart, domain)
    else FoldedMatch(t, a, localpart, domain, lower)
  }

  /** `a` is a longest wildcard matching in any case, by its length in lower case. If there is none it is
      a longest one matching as it stands. */
  ghost predicate BestWildcard(t: Tables, localpart: string, domain: string, lower: Lowering, a: Alias) {
    if HasAnyCaseWildcard(t, localpart, domain, lower) then
      && AnyCaseWildcard(t, a, localpart, domain, lower)
      && forall b :: AnyCaseWildcard(t, b, localpart, domain, lower) ==>
           |Lowered(b.localpart, lower)| <= |Lowered(a.localpart, lower)|
    else
      && SameCaseWildcard(t, a, localpart, domain)
      && forall b :: SameCaseWildcard(t, b, localpart, domain) ==> |b.localpart| <= |a.localpart|
  }

  ghost predicate Ranked(t: Tables, localpart: string, domain: string, lower: Lowering, r: Option<Alias>) {
    if HasExact(t, localpart, domain) || HasFolded(t, localpart, domain, lower)
    then r.Some? && BestExplicit(t, localpart, domain, lower, r.value)
    else if HasWildcard(t, localpart, domain, lower)
    then r.Some? && BestWildcard(t, localpart, domain, lower, r.value)
    else r.None?
  }

  /** Every ordered query has a first row, if it has any. */
  lemma {:induction false} FirstExists(rows: set<Alias>, text: string -> string) returns (r: Option<Alias>)
    ensures First(rows, text, r)
    decreases |rows|
  {
    if rows == {} {
      return None;
    }
    var a :| a in rows;
    var rest := FirstExists(rows - {a}, text);
    assert rows == rows - {a} + {a};
    if rest.None? || Before(a, rest.value, text) {
      return Some(a);
    }
    return rest;
  }

  /** What the same-case query finds, the any-case query finds too, except perhaps wildcards. */
  lemma SameCaseWithinAnyCase(t: Tables, localpart: string, domain: string, lower: Lowering)
    requires KeepsWildcards(lower) && localpart != ""
    ensures forall a :: a in SameCase(t, Some(localpart), domain) && (a.wildcard ==> Narrow(localpart, lower)) ==>
              a in AnyCase(t, Some(localpart), domain, lower)
  {
    forall a | a in SameCase(t, Some(localpart), domain) && a.wildcard && Narrow(localpart, lower)
      ensures Like(Lowered(localpart, lower), Lowered(a.localpart, lower))
    {
      LikeLowered(localpart, a.localpart, lower);
    }
  }

  lemma EmptyMatches(t: Tables, domain: string, lower: Lowering)
    requires KeepsWildcards(lower)
    ensures forall a :: FoldedMatch(t, a, "", domain, lower) <==> ExactMatch(t, a, "", domain)
    ensures forall a :: AnyCaseWildcard(t, a, "", domain, lower) <==> SameCaseWildcard(t, a, "", domain)
    ensures forall a :: AnyCaseWildcard(t, a, "", domain, lower) ==> Lowered(a.localpart, lower) == a.localpart
  {
    assert Lowered("", lower) == "";
    forall a: Alias
      ensures Lowered(a.localpart, lower) == "" <==> a.localpart == ""
      ensures Like("", Lowered(a.localpart, lower)) == Like("", a.localpart)
      ensures Like("", a.localpart) ==> Lowered(a.localpart, lower) == a.localpart
    {
      LoweredLength(a.localpart, lower);
      LikeEmpty(a.localpart, lower);
    }
  }

  /** The branch for a same-case match without an any-case match is taken for the empty local part
      (the catch-all lookup "@domain"), and for one with a character whose lower case is longer. */
  lemma LoneSameCaseMatch(t: Tables, localpart: string, domain: string, lower: Lowering,
                          p: Option<Alias>, l: Option<Alias>)
    requires KeepsWildcards(lower)
    requires FirstSame(t, Some(localpart), domain, p) && FirstAny(t, Some(localpart), domain, lower, l)
    ensures p.Some? && l.None? ==> localpart == "" || !Narrow(localpart, lower)
    ensures localpart == "" ==> (p.Some? && l.None? <==> SameCase(t, Some(localpart), domain) != {})
  {
    if localpart != "" {
      SameCaseWithinAnyCase(t, localpart, domain, lower);
    }
  }

  /** Can the branch be taken for the local part, by some tables? */
  ghost predicate CanBeLone(localpart: string, domain: string, lower: Lowering) {
    exists t, p, l ::
      && FirstSame(t, Some(localpart), domain, p) && FirstAny(t, Some(localpart), domain, lower, l)
      && p.Some? && l.None?
  }

  lemma CanBeLoneExactlyWhen(localpart: string, domain: string, lower: Lowering)
    requires KeepsWildcards(lower)
    ensures CanBeLone(localpart, domain, lower) <==> localpart == "" || !Narrow(localpart, lower)
  {
    if CanBeLone(localpart, domain, lower) {
      var t, p, l :|
        && FirstSame(t, Some(localpart), domain, p) && FirstAny(t, Some(localpart), domain, lower, l)
        && p.Some? && l.None?;
      LoneSameCaseMatch(t, localpart, domain, lower, p, l);
    }
    if localpart == "" || !Narrow(localpart, lower) {
      var a := Alias(Underscores(|localpart|), domain, true, [], None, false);
      var t := Tables({a}, map[]);
      LikeUnderscores(localpart, |localpart|);
      if localpart != "" {
        WideMatchIsLost(localpart, lower);
      }
      assert a in SameCase(t, Some(localpart), domain);
      assert FirstSame(t, Some(localpart), domain, Some(a)) && FirstAny(t, Some(localpart), domain, lower, None);
    }
  }

  lemma ResolvedIsRanked(t: Tables, localpart: string, domain: string, lower: Lowering,
                         p: Option<Alias>, l: Option<Alias>)
    requires KeepsWildcards(lower)
    requires FirstSame(t, Some(localpart), domain, p) && FirstAny(t, Some(localpart), domain, lower, l)
    ensures Ranked(t, localpart, domain, lower, Combined(p, l))
  {
    var same, any := SameCase(t, Some(localpart), domain), AnyCase(t, Some(localpart), domain, lower);
    assert forall a :: a in same <==> ExactMatch(t, a, localpart, domain) || SameCaseWildcard(t, a, localpart, domain);
    if localpart == "" {
      EmptyMatches(t, domain, lower);
      assert any == {};
    } else {
      SameCaseWithinAnyCase(t, localpart, domain, lower);
      assert forall a :: a in any <==>
                FoldedMatch(t, a, localpart, domain, lower) || AnyCaseWildcard(t, a, localpart, domain, lower);
    }
  }

  /** Without explicit or any-case matches only the same-case query finds anything. */
  lemma OnlySameCase(t: Tables, localpart: string, domain: string, lower: Lowering, r: Option<Alias>)
    requires localpart != "" && !HasFolded(t, localpart, domain, lower)
    requires !HasAnyCaseWildcard(t, localpart, domain, lower) && !HasExact(t, localpart, domain)
    requires r.Some? && BestWildcard(t, localpart, domain, lower, r.value)
    ensures FirstSame(t, Some(localpart), domain, r) && FirstAny(t, Some(localpart), domain, lower, None)
  {
    var any := AnyCase(t, Some(localpart), domain, lower);
    assert forall a :: a in any ==>
              FoldedMatch(t, a, localpart, domain, lower) || AnyCaseWildcard(t, a, localpart, domain, lower);
    forall a | a in SameCase(t, Some(localpart), domain)
      ensures SameCaseWildcard(t, a, localpart, domain)
    {
      assert !ExactMatch(t, a, localpart, domain);
    }
  }

  lemma RankedIsResolved(t: Tables, localpart: string, domain: string, lower: Lowering, r: Option<Alias>)
    requires KeepsWildcards(lower) && Ranked(t, localpart, domain, lower, r)
    ensures Resolves(t, Some(localpart), domain, lower, r)
  {
    var same, any := SameCase(t, Some(localpart), domain), AnyCase(t, Some(localpart), domain, lower);
    var p := FirstExists(same, AsIs());
    var l := FirstExists(any, InLower(lower));
    ResolvedIsRanked(t, localpart, domain, lower, p, l);
    if r.None? {
      assert Combined(p, l) == r;
    } else if localpart == "" {
      EmptyMatches(t, domain, lower);
      assert FirstSame(t, Some(localpart), domain, r) && Combined(r, l) == r;
    } else if HasExact(t, localpart, domain) {
      assert FirstSame(t, Some(localpart), domain, r) && Combined(r, l) == r;
    } else if HasFolded(t, localpart, domain, lower) || HasAnyCaseWildcard(t, localpart, domain, lower) {
      assert FirstAny(t, Some(localpart), domain, lower, r);
      assert p.Some? ==> ExactMatch(t, p.value, localpart, domain) || p.value.wildcard;
      assert Combined(p, r) == r;
    } else {
      OnlySameCase(t, localpart, domain, lower, r);
      assert Combined(r, None) == r;
    }
  }

  /** The two queries and their combination refine the one ranking, and leave open no more than it:
      an alias is a possible result exactly when the ranking allows it. */
  lemma ResolveIsRanking(t: Tables, localpart: string, domain: string, lower: Lowering, r: Option<Alias>)
    requires KeepsWildcards(lower)
    ensures Resolves(t, Some(localpart), domain, lower, r) <==> Ranked(t, localpart, domain, lower, r)
  {
    if Resolves(t, Some(localpart), domain, lower, r) {
      var p, l :| FirstSame(t, Some(localpart), domain, p) && FirstAny(t, Some(localpart), domain, lower, l)
                  && r == Combined(p, l);
      ResolvedIsRanked(t, localpart, domain, lower, p, l);
    }
    if Ranked(t, localpart, domain, lower, r) {
      RankedIsResolved(t, localpart, domain, lower, r);
    }
  }

  /** An alias of another domain, a disabled one, or one whose owner is disabled or gone, is never a
      result. */
  lemma ResultIsEnabled(t: Tables, localpart: Option<string>, domain: string, lower: Lowering, r: Option<Alias>)
    requires Resolves(t, localpart, domain, lower, r) && r.Some?
    ensures r.value in t.aliases && r.value.domain == domain && !r.value.disabled
    ensures r.value.owner.Some? ==> r.value.owner.value in t.users && t.users[r.value.owner.value].enabled
  {
  }

  /** And every other one is found: an explicit alias in the very case of the address decides the
      result, one in another case excludes wildcards, a matching wildcard excludes finding nothing. */
  lemma EnabledAliasIsFound(t: Tables, a: Alias, localpart: string, domain: string, lower: Lowering, r: Option<Alias>)
    requires KeepsWildcards(lower) && Resolves(t, Some(localpart), domain, lower, r)
    requires a in t.aliases && a.domain == domain && !a.disabled
    requires a.owner.Some? ==> a.owner.value in t.users && t.users[a.owner.value].enabled
    ensures !a.wildcard && a.localpart == localpart ==> r.Some? && !r.value.wildcard && r.value.localpart == localpart
    ensures !a.wildcard && Lowered(a.localpart, lower) == Lowered(localpart, lower) ==>
              r.Some? && !r.value.wildcard && Lowered(r.value.localpart, lower) == Lowered(localpart, lower)
    ensures a.wildcard && Like(localpart, a.localpart) ==> r.Some?
    ensures a.wildcard && Like(Lowered(localpart, lower), Lowered(a.localpart, lower)) ==> r.Some?
  {
    ResolveIsRanking(t, localpart, domain, lower, r);
    assert !a.wildcard && a.localpart == localpart ==> ExactMatch(t, a, localpart, domain);
    assert !a.wildcard && Lowered(a.localpart, lower) == Lowered(localpart, lower) ==>
             FoldedMatch(t, a, localpart, domain, lower);
    assert a.wildcard && Like(localpart, a.localpart) ==> SameCaseWildcard(t, a, localpart, domain);
    assert a.wildcard && Like(Lowered(localpart, lower), Lowered(a.localpart, lower)) ==>
             AnyCaseWildcard(t, a, localpart, domain, lower);
  }

  // ---- resolve_destination ----

  /** Length of the local part before its first recipient delimiter, if it has one. */
  function DelimiterAt(localpart: string, delims: string): Option<nat> {
    if localpart == "" then None
    else if localpart[0] in delims then Some(0)
    else
      var rest := DelimiterAt(localpart[1..], delims);
      if rest.Some? then Some(rest.value + 1) else None
  }

  lemma {:induction false} DelimiterIsFirst(localpart: string, delims: string)
    ensures match DelimiterAt(localpart, delims)
            case Some(n) =>
              n < |localpart| && localpart[n] in delims && forall i :: 0 <= i < n ==> localpart[i] !in delims
            case None => forall i :: 0 <= i < |localpart| ==> localpart[i] !in delims
  {
    if localpart != "" {
      DelimiterIsFirst(localpart[1..], delims);
    }
  }

  function Stripped(localpart: string, delims: string): Option<string>
    ensures Stripped(localpart, delims).Some? ==> |Stripped(localpart, delims).value| < |localpart|
  {
    DelimiterIsFirst(localpart, delims);
    match DelimiterAt(localpart, delims)
    case Some(n) => Some(localpart[..n])
    case None => None
  }

  /** The part before the first delimiter, and none where there is no delimiter. */
  lemma StrippedIs(localpart: string, delims: string)
    ensures match Stripped(localpart, delims)
            case Some(front) =>
              && |front| < |localpart| && front == localpart[..|front|] && localpart[|front|] in delims
              && forall c :: c in front ==> c !in delims
            case None => forall c :: c in localpart ==> c !in delims
  {
    DelimiterIsFirst(localpart, delims);
  }

  /** Position of the last '@', as `rsplit('@', 1)` looks for it. */
  function LastAt(address: string): Option<nat> {
    if address == "" then None
    else if address[|address| - 1] == '@' then Some(|address| - 1)
    else LastAt(address[..|address| - 1])
  }

  lemma {:induction false} LastAtIsLast(address: string)
    ensures match LastAt(address)
            case Some(n) => n < |address| && address[n] == '@' && '@' !in address[n + 1..]
            case None => '@' !in address
  {
    if address != "" && address[|address| - 1] != '@' {
      var front := address[..|address| - 1];
      LastAtIsLast(front);
      assert address == front + [address[|address| - 1]];
      if LastAt(front).Some? {
        var n := LastAt(front).value;
        assert address[n + 1..] == front[n + 1..] + [address[|address| - 1]];
      }
    }
  }

  lemma {:induction false} LastAtOf(localpart: string, domain: string)
    requires '@' !in domain
    ensures LastAt(localpart + "@" + domain) == Some(|localpart|)
  {
    var address := localpart + "@" + domain;
    if domain == "" {
      assert address == localpart + "@";
    } else {
      var front := domain[..|domain| - 1];
      assert address[..|address| - 1] == localpart + "@" + front;
      LastAtOf(localpart, front);
    }
  }

  /** `_append_detail` */
  function AppendDetail(address: string, detail: string): string {
    LastAtIsLast(address);
    if detail == "" || LastAt(address).None? then address
    else
      var n := LastAt(address).value;
      address[..n] + detail + address[n..]
  }

  /** The detail goes before the last '@'; without an '@' it is dropped. */
  lemma DetailGoesBeforeTheDomain(localpart: string, domain: string, detail: string)
    requires '@' !in domain
    ensures AppendDetail(localpart + "@" + domain, detail) == localpart + detail + "@" + domain
    ensures AppendDetail(domain, detail) == domain
  {
    LastAtOf(localpart, domain);
    var address := localpart + "@" + domain;
    assert address[..|localpart|] == localpart && address[|localpart|..] == "@" + domain;
    assert localpart + "" == localpart;
    LastAtIsLast(domain);
  }

  /** Looking a rewritten destination up again finds the original one as its stripped address. */
  lemma DetailComesOffAgain(localpart: string, domain: string, detail: string, delims: string)
    requires '@' !in domain && detail != "" && detail[0] in delims
    requires forall i :: 0 <= i < |localpart| ==> localpart[i] !in delims
    ensures AppendDetail(localpart + "@" + domain, detail) == localpart + detail + "@" + domain
    ensures Stripped(localpart + detail, delims) == Some(localpart)
  {
    LastAtOf(localpart, domain);
    var address := localpart + "@" + domain;
    assert address[..|localpart|] == localpart && address[|localpart|..] == "@" + domain;
    var full := localpart + detail;
    DelimiterIsFirst(full, delims);
    assert full[|localpart|] == detail[0];
    assert forall i :: 0 <= i < |localpart| ==> full[i] == localpart[i];
    assert full[..|localpart|] == localpart;
  }

  function Mailbox(localpart: string, domain: string): string {
    localpart + "@" + domain
  }

  function Detailed(destination: seq<string>, detail: string): (r: seq<string>)
    ensures |r| == |destination|
    ensures forall i :: 0 <= i < |r| ==> r[i] == AppendDetail(destination[i], detail)
  {
    seq(|destination|, i requires 0 <= i < |destination| => AppendDetail(destination[i], detail))
  }

  function Delivered(user: UserRow, email: string, ignoreKeep: bool): seq<string> {
    if !user.forwardEnabled then [email]
    else user.forwardDestination + if user.forwardKeep || ignoreKeep then [email] else []
  }

  /** `resolve_destination`, given what its two alias lookups return. */
  function Destination(t: Tables, localpart: string, domain: string, delims: string, ignoreKeep: bool,
                       pure: Option<Alias>, viaStripped: Option<Alias>): Option<seq<string>> {
    var stripped := Stripped(localpart, delims);
    var email := Mailbox(localpart, domain);
    if email in t.users then Some(Delivered(t.users[email], email, ignoreKeep))
    else if stripped.Some? && stripped.value != "" && Mailbox(stripped.value, domain) in t.users
    then Some(Delivered(t.users[Mailbox(stripped.value, domain)], email, ignoreKeep))
    else AliasDestination(stripped.Some?, Detail(localpart, delims), pure, viaStripped)
  }

  /** What stripping takes off. */
  function Detail(localpart: string, delims: string): string {
    if Stripped(localpart, delims).Some? then localpart[|Stripped(localpart, delims).value|..] else ""
  }

  /** The lookups' results when the address is no user's. */
  function AliasDestination(strips: bool, detail: string, pure: Option<Alias>, viaStripped: Option<Alias>)
    : Option<seq<string>>
  {
    if pure.Some? && !pure.value.wildcard then Some(pure.value.destination)
    else if strips && viaStripped.Some? then
      if viaStripped.value.wildcard then Some(viaStripped.value.destination)
      else Some(Detailed(viaStripped.value.destination, detail))
    else if pure.Some? then Some(pure.value.destination)
    else None
  }

  ghost predicate ResolvesTo(t: Tables, localpart: string, domain: string, lower: Lowering, delims: string,
                             ignoreKeep: bool, d: Option<seq<string>>) {
    exists pure, viaStripped ::
      && Resolves(t, Some(localpart), domain, lower, pure)
      && Resolves(t, Stripped(localpart, delims), domain, lower, viaStripped)
      && d == Destination(t, localpart, domain, delims, ignoreKeep, pure, viaStripped)
  }

  ghost predicate HasExplicit(t: Tables, localpart: string, domain: string, lower: Lowering) {
    HasExact(t, localpart, domain) || HasFolded(t, localpart, domain, lower)
  }

  ghost predicate Explicitly(t: Tables, localpart: string, domain: string, lower: Lowering, detail: string,
                             d: Option<seq<string>>) {
    exists a :: BestExplicit(t, localpart, domain, lower, a) && d == Some(Detailed(a.destination, detail))
  }

  ghost predicate ByWildcard(t: Tables, localpart: string, domain: string, lower: Lowering, d: Option<seq<string>>) {
    exists a :: BestWildcard(t, localpart, domain, lower, a) && d == Some(a.destination)
  }

  /** What mail to `asked` becomes for a user: it stays, or is forwarded, and stays as well if the user
      keeps copies or the caller wants them. */
  ghost predicate ForUser(user: UserRow, asked: string, ignoreKeep: bool, d: Option<seq<string>>) {
    && d.Some?
    && (!user.forwardEnabled ==> d.value == [asked])
    && (user.forwardEnabled && !user.forwardKeep && !ignoreKeep ==> d.value == user.forwardDestination)
    && (user.forwardEnabled && user.forwardKeep ==> d.value == user.forwardDestination + [asked])
    && (user.forwardEnabled && ignoreKeep ==> d.value == user.forwardDestination + [asked])
  }

  /** The order of precedence, in terms of what is in the tables. */
  ghost predicate ByPrecedence(t: Tables, localpart: string, domain: string, lower: Lowering, delims: string,
                               ignoreKeep: bool, d: Option<seq<string>>) {
    var stripped := Stripped(localpart, delims);
    // a mailbox, with or without the detail
    if localpart + "@" + domain in t.users
    then ForUser(t.users[localpart + "@" + domain], localpart + "@" + domain, ignoreKeep, d)
    else if stripped.Some? && stripped.value != "" && stripped.value + "@" + domain in t.users
    then ForUser(t.users[stripped.value + "@" + domain], localpart + "@" + domain, ignoreKeep, d)
    else AliasPrecedence(t, localpart, stripped, Detail(localpart, delims), domain, lower, d)
  }

  ghost predicate AliasPrecedence(t: Tables, localpart: string, stripped: Option<string>, detail: string,
                                  domain: string, lower: Lowering, d: Option<seq<string>>) {
    // an explicit alias for the whole address
    if HasExplicit(t, localpart, domain, lower) then Explicitly(t, localpart, domain, lower, "", d)
    // any alias for the address without its detail, which explicit ones get back
    else if stripped.Some? && HasExplicit(t, stripped.value, domain, lower)
    then Explicitly(t, stripped.value, domain, lower, detail, d)
    else if stripped.Some? && HasWildcard(t, stripped.value, domain, lower)
    then ByWildcard(t, stripped.value, domain, lower, d)
    // a wildcard for the whole address
    else if HasWildcard(t, localpart, domain, lower) then ByWildcard(t, localpart, domain, lower, d)
    else d == None
  }

  /** Mail for a user's own address, with or without a detail, goes by the user's settings alone. */
  lemma UserDestination(t: Tables, localpart: string, domain: string, lower: Lowering, delims: string,
                        ignoreKeep: bool, d: Option<seq<string>>)
    requires ResolvesTo(t, localpart, domain, lower, delims, ignoreKeep, d)
    ensures localpart + "@" + domain in t.users ==>
              ForUser(t.users[localpart + "@" + domain], localpart + "@" + domain, ignoreKeep, d)
    ensures var stripped := Stripped(localpart, delims);
            stripped.Some? && stripped.value != "" && localpart + "@" + domain !in t.users
            && stripped.value + "@" + domain in t.users ==>
              ForUser(t.users[stripped.value + "@" + domain], localpart + "@" + domain, ignoreKeep, d)
  {
    var pure, via :|
      && Resolves(t, Some(localpart), domain, lower, pure)
      && Resolves(t, Stripped(localpart, delims), domain, lower, via)
      && d == Destination(t, localpart, domain, delims, ignoreKeep, pure, via);
  }

  lemma NoDetail(destination: seq<string>)
    ensures Detailed(destination, "") == destination
  {
  }

  lemma AliasesFollow(t: Tables, localpart: string, stripped: Option<string>, detail: string, domain: string,
                      lower: Lowering, pure: Option<Alias>, via: Option<Alias>)
    requires Ranked(t, localpart, domain, lower, pure)
    requires stripped.Some? ==> Ranked(t, stripped.value, domain, lower, via)
    ensures AliasPrecedence(t, localpart, stripped, detail, domain, lower,
                            AliasDestination(stripped.Some?, detail, pure, via))
  {
    if pure.Some? {
      NoDetail(pure.value.destination);
    }
  }

  /** Every destination the lookup can give follows the order of precedence. */
  lemma DestinationFollowsPrecedence(t: Tables, localpart: string, domain: string, lower: Lowering, delims: string,
                                     ignoreKeep: bool, d: Option<seq<string>>)
    requires KeepsWildcards(lower)
    requires ResolvesTo(t, localpart, domain, lower, delims, ignoreKeep, d)
    ensures ByPrecedence(t, localpart, domain, lower, delims, ignoreKeep, d)
  {
    var stripped := Stripped(localpart, delims);
    if IsUser(t, localpart, domain, delims) {
      UserDestination(t, localpart, domain, lower, delims, ignoreKeep, d);
    } else {
      var pure, via :|
        && Resolves(t, Some(localpart), domain, lower, pure)
        && Resolves(t, stripped, domain, lower, via)
        && d == Destination(t, localpart, domain, delims, ignoreKeep, pure, via);
      ResolveIsRanking(t, localpart, domain, lower, pure);
      if stripped.Some? {
        ResolveIsRanking(t, stripped.value, domain, lower, via);
      }
      AliasesFollow(t, localpart, stripped, Detail(localpart, delims), domain, lower, pure, via);
    }
  }

  lemma ResolvedExists(t: Tables, localpart: Option<string>, domain: string, lower: Lowering) returns (r: Option<Alias>)
    ensures Resolves(t, localpart, domain, lower, r)
  {
    var p := FirstExists(SameCase(t, localpart, domain), AsIs());
    var l := FirstExists(AnyCase(t, localpart, domain, lower), InLower(lower));
    r := Combined(p, l);
  }

  lemma RankedExists(t: Tables, localpart: string, domain: string, lower: Lowering) returns (r: Option<Alias>)
    requires KeepsWildcards(lower)
    ensures Ranked(t, localpart, domain, lower, r)
  {
    r := ResolvedExists(t, Some(localpart), domain, lower);
    ResolveIsRanking(t, localpart, domain, lower, r);
  }

  lemma AliasesPossible(t: Tables, localpart: string, stripped: Option<string>, detail: string, domain: string,
                        lower: Lowering, d: Option<seq<string>>) returns (pure: Option<Alias>, via: Option<Alias>)
    requires KeepsWildcards(lower) && AliasPrecedence(t, localpart, stripped, detail, domain, lower, d)
    ensures Ranked(t, localpart, domain, lower, pure)
    ensures if stripped.Some? then Ranked(t, stripped.value, domain, lower, via) else via == None
    ensures d == AliasDestination(stripped.Some?, detail, pure, via)
  {
    pure := RankedExists(t, localpart, domain, lower);
    via := None;
    if stripped.Some? {
      via := RankedExists(t, stripped.value, domain, lower);
    }
    if HasExplicit(t, localpart, domain, lower) {
      var a :| BestExplicit(t, localpart, domain, lower, a) && d == Some(Detailed(a.destination, ""));
      NoDetail(a.destination);
      pure := Some(a);
    } else if stripped.Some? && HasExplicit(t, stripped.value, domain, lower) {
      var a :| BestExplicit(t, stripped.value, domain, lower, a) && d == Some(Detailed(a.destination, detail));
      via := Some(a);
    } else if stripped.Some? && HasWildcard(t, stripped.value, domain, lower) {
      var a :| BestWildcard(t, stripped.value, domain, lower, a) && d == Some(a.destination);
      via := Some(a);
    } else if HasWildcard(t, localpart, domain, lower) {
      var a :| BestWildcard(t, localpart, domain, lower, a) && d == Some(a.destination);
      pure := Some(a);
    }
  }

  lemma ForUserIs(user: UserRow, asked: string, ignoreKeep: bool, d: Option<seq<string>>)
    ensures ForUser(user, asked, ignoreKeep, d) <==> d == Some(Delivered(user, asked, ignoreKeep))
  {
    assert user.forwardDestination + [] == user.forwardDestination;
  }

  /** The address, or what is left of it without its detail, is a user's. */
  predicate IsUser(t: Tables, localpart: string, domain: string, delims: string) {
    || localpart + "@" + domain in t.users
    || var stripped := Stripped(localpart, delims);
       stripped.Some? && stripped.value != "" && stripped.value + "@" + domain in t.users
  }

  lemma NothingForNull(t: Tables, domain: string, lower: Lowering)
    ensures Resolves(t, None, domain, lower, None)
  {
    assert FirstSame(t, None, domain, None) && FirstAny(t, None, domain, lower, None);
  }

  lemma ByTheseLookups(t: Tables, localpart: string, domain: string, lower: Lowering, delims: string,
                       ignoreKeep: bool, pure: Option<Alias>, via: Option<Alias>)
    requires Resolves(t, Some(localpart), domain, lower, pure)
    requires Resolves(t, Stripped(localpart, delims), domain, lower, via)
    ensures ResolvesTo(t, localpart, domain, lower, delims, ignoreKeep,
                       Destination(t, localpart, domain, delims, ignoreKeep, pure, via))
  {
  }

  lemma UserIsPossible(t: Tables, localpart: string, domain: string, lower: Lowering, delims: string,
                       ignoreKeep: bool, d: Option<seq<string>>)
    requires IsUser(t, localpart, domain, delims)
    requires ByPrecedence(t, localpart, domain, lower, delims, ignoreKeep, d)
    ensures ResolvesTo(t, localpart, domain, lower, delims, ignoreKeep, d)
  {
    var stripped, email := Stripped(localpart, delims), localpart + "@" + domain;
    var pure := ResolvedExists(t, Some(localpart), domain, lower);
    var via := ResolvedExists(t, stripped, domain, lower);
    ForUserIs(t.users[if email in t.users then email else stripped.value + "@" + domain], email, ignoreKeep, d);
    ByTheseLookups(t, localpart, domain, lower, delims, ignoreKeep, pure, via);
  }

  lemma NoUserDestination(t: Tables, localpart: string, domain: string, delims: string, ignoreKeep: bool,
                          pure: Option<Alias>, via: Option<Alias>)
    requires !IsUser(t, localpart, domain, delims)
    ensures Destination(t, localpart, domain, delims, ignoreKeep, pure, via)
         == AliasDestination(Stripped(localpart, delims).Some?, Detail(localpart, delims), pure, via)
  {
  }

  /** And every destination that follows the order can come out of the lookup. */
  lemma PrecedenceIsPossible(t: Tables, localpart: string, domain: string, lower: Lowering, delims: string,
                             ignoreKeep: bool, d: Option<seq<string>>)
    requires KeepsWildcards(lower)
    requires ByPrecedence(t, localpart, domain, lower, delims, ignoreKeep, d)
    ensures ResolvesTo(t, localpart, domain, lower, delims, ignoreKeep, d)
  {
    if IsUser(t, localpart, domain, delims) {
      UserIsPossible(t, localpart, domain, lower, delims, ignoreKeep, d);
    } else {
      var stripped := Stripped(localpart, delims);
      var pure, via := AliasesPossible(t, localpart, stripped, Detail(localpart, delims), domain, lower, d);
      NoUserDestination(t, localpart, domain, delims, ignoreKeep, pure, via);
      LookupsPossible(t, localpart, stripped, domain, lower, pure, via);
      ByTheseLookups(t, localpart, domain, lower, delims, ignoreKeep, pure, via);
    }
  }

  lemma LookupsPossible(t: Tables, localpart: string, stripped: Option<string>, domain: string, lower: Lowering,
                        pure: Option<Alias>, via: Option<Alias>)
    requires KeepsWildcards(lower) && Ranked(t, localpart, domain, lower, pure)
    requires if stripped.Some? then Ranked(t, stripped.value, domain, lower, via) else via == None
    ensures Resolves(t, Some(localpart), domain, lower, pure) && Resolves(t, stripped, domain, lower, via)
  {
    ResolveIsRanking(t, localpart, domain, lower, pure);
    if stripped.Some? {
      ResolveIsRanking(t, stripped.value, domain, lower, via);
    } else {
      NothingForNull(t, domain, lower);
    }
  }
}
