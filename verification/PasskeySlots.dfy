/** The allow-list of a username-first passkey login: real credentials padded to ten slots with
    keyed-hash fillers, in an order that does not tell them apart. */
module PasskeySlots {
  import opened Bytes

  const SLOTS := 10

  datatype CredentialId = CredentialId(id: bytes)

  /** The keyed hash of a filler's slot number, which no two slot numbers share, and the keyed hash
      that decides the final order. */
  datatype Hashes = Hashes(filler: nat -> CredentialId, order: CredentialId -> nat)

  ghost predicate FillersDiffer(h: Hashes) {
    forall i, j :: h.filler(i) == h.filler(j) ==> i == j
  }

  ghost predicate Distinct<T>(s: seq<T>) {
    forall i, j :: 0 <= i < j < |s| ==> s[i] != s[j]
  }

  function Elements<T>(s: seq<T>): set<T> {
    set x | x in s
  }

  /** The fillers among the first `n` slots, in the order tried: those that are not genuine ids. */
  function Fillers(genuine: set<CredentialId>, h: Hashes, n: nat): seq<CredentialId> {
    if n == 0 then []
    else if h.filler(n - 1) in genuine then Fillers(genuine, h, n - 1)
    else Fillers(genuine, h, n - 1) + [h.filler(n - 1)]
  }

  /** The slots among the first `n` whose filler happens to be a genuine id. */
  function Hits(genuine: set<CredentialId>, h: Hashes, n: nat): seq<CredentialId> {
    if n == 0 then []
    else if h.filler(n - 1) in genuine then Hits(genuine, h, n - 1) + [h.filler(n - 1)]
    else Hits(genuine, h, n - 1)
  }

  lemma {:induction false} FromSlots(genuine: set<CredentialId>, h: Hashes, n: nat, x: CredentialId)
    ensures x in Fillers(genuine, h, n) <==> x !in genuine && exists i :: 0 <= i < n && h.filler(i) == x
    ensures x in Hits(genuine, h, n) <==> x in genuine && exists i :: 0 <= i < n && h.filler(i) == x
  {
    if n > 0 {
      FromSlots(genuine, h, n - 1, x);
    }
  }

  /** Every slot number tried is a filler or a hit, and no two are the same. */
  lemma {:induction false} SlotsAreFillersOrHits(genuine: set<CredentialId>, h: Hashes, n: nat)
    requires FillersDiffer(h)
    ensures |Fillers(genuine, h, n)| + |Hits(genuine, h, n)| == n
    ensures Distinct(Fillers(genuine, h, n)) && Distinct(Hits(genuine, h, n))
  {
    if n > 0 {
      SlotsAreFillersOrHits(genuine, h, n - 1);
      FromSlots(genuine, h, n - 1, h.filler(n - 1));
    }
  }

  lemma HitsAreGenuine(genuine: set<CredentialId>, h: Hashes, n: nat)
    ensures Elements(Hits(genuine, h, n)) <= genuine && Elements(Fillers(genuine, h, n)) !! genuine
  {
    forall x
      ensures x in Hits(genuine, h, n) ==> x in genuine
      ensures x in Fillers(genuine, h, n) ==> x !in genuine
    {
      FromSlots(genuine, h, n, x);
    }
  }

  lemma {:induction false} FillersGrow(genuine: set<CredentialId>, h: Hashes, m: nat, n: nat)
    requires m <= n
    ensures |Fillers(genuine, h, m)| <= |Fillers(genuine, h, n)|
  {
    if m < n {
      FillersGrow(genuine, h, m, n - 1);
    }
  }

  lemma {:induction false} SubsetSize<T>(a: set<T>, b: set<T>)
    requires a <= b
    ensures |a| <= |b|
    decreases |a|
  {
    if a != {} {
      var x :| x in a;
      SubsetSize(a - {x}, b - {x});
    }
  }

  /** Slots are left to try only below the tenth. */
  lemma FewSlots(genuine: set<CredentialId>, h: Hashes, n: nat)
    requires FillersDiffer(h) && |genuine| + |Fillers(genuine, h, n)| < SLOTS
    ensures n < SLOTS
  {
    SlotsAreFillersOrHits(genuine, h, n);
    HitsAreGenuine(genuine, h, n);
    DistinctSize(Hits(genuine, h, n));
    SubsetSize(Elements(Hits(genuine, h, n)), genuine);
  }

  lemma {:induction false} DistinctSize<T>(s: seq<T>)
    requires Distinct(s)
    ensures |Elements(s)| == |s|
  {
    if s != [] {
      var front, last := s[..|s| - 1], s[|s| - 1];
      DistinctSize(front);
      assert s == front + [last];
      assert Elements(s) == Elements(front) + {last};
      assert forall i :: 0 <= i < |front| ==> front[i] == s[i] != last;
    }
  }

  // ---- the final order ----

  ghost predicate SortedBy(s: seq<CredentialId>, key: CredentialId -> nat) {
    forall i, j :: 0 <= i <= j < |s| ==> key(s[i]) <= key(s[j])
  }

  /** `list.sort(key=...)`: stable insertion. */
  function Insert(s: seq<CredentialId>, x: CredentialId, key: CredentialId -> nat): seq<CredentialId> {
    if s == [] then [x]
    else if key(s[|s| - 1]) <= key(x) then s + [x]
    else Insert(s[..|s| - 1], x, key) + [s[|s| - 1]]
  }

  function Sort(s: seq<CredentialId>, key: CredentialId -> nat): seq<CredentialId> {
    if s == [] then [] else Insert(Sort(s[..|s| - 1], key), s[|s| - 1], key)
  }

  lemma {:induction false} InsertKeeps(s: seq<CredentialId>, x: CredentialId, key: CredentialId -> nat)
    ensures multiset(Insert(s, x, key)) == multiset(s) + multiset{x}
  {
    if s != [] && key(s[|s| - 1]) > key(x) {
      var front, last := s[..|s| - 1], s[|s| - 1];
      InsertKeeps(front, x, key);
      assert s == front + [last];
    }
  }

  lemma {:induction false} InsertSorts(s: seq<CredentialId>, x: CredentialId, key: CredentialId -> nat)
    requires SortedBy(s, key)
    ensures SortedBy(Insert(s, x, key), key)
  {
    if s != [] && key(s[|s| - 1]) > key(x) {
      var front, last := s[..|s| - 1], s[|s| - 1];
      InsertSorts(front, x, key);
      var t := Insert(front, x, key);
      forall i | 0 <= i < |t|
        ensures key(t[i]) <= key(last)
      {
        InsertKeeps(front, x, key);
        assert t[i] in multiset(t);
        assert t[i] in front || t[i] == x;
      }
    }
  }

  lemma LastCounts(s: seq<CredentialId>)
    requires s != []
    ensures multiset(s) == multiset(s[..|s| - 1]) + multiset{s[|s| - 1]}
  {
    assert s == s[..|s| - 1] + [s[|s| - 1]];
  }

  lemma {:induction false} SortKeeps(s: seq<CredentialId>, key: CredentialId -> nat)
    ensures multiset(Sort(s, key)) == multiset(s)
  {
    if s != [] {
      var front, last := s[..|s| - 1], s[|s| - 1];
      SortKeeps(front, key);
      var sorted := Sort(front, key);
      InsertKeeps(sorted, last, key);
      assert Sort(s, key) == Insert(sorted, last, key);
      LastCounts(s);
    }
  }

  lemma {:induction false} SortSorts(s: seq<CredentialId>, key: CredentialId -> nat)
    ensures SortedBy(Sort(s, key), key)
  {
    if s != [] {
      SortSorts(s[..|s| - 1], key);
      InsertSorts(Sort(s[..|s| - 1], key), s[|s| - 1], key);
    }
  }

  lemma LastIsGreatest(s: seq<CredentialId>, key: CredentialId -> nat, x: CredentialId)
    requires SortedBy(s, key) && x in s
    ensures key(x) <= key(s[|s| - 1])
  {
    var i :| 0 <= i < |s| && s[i] == x;
  }

  lemma SameElements(a: seq<CredentialId>, b: seq<CredentialId>, x: CredentialId)
    requires multiset(a) == multiset(b)
    ensures |a| == |b| && (x in a <==> x in b)
  {
    assert |multiset(a)| == |a| && |multiset(b)| == |b|;
    assert x in a <==> x in multiset(a);
    assert x in b <==> x in multiset(b);
  }

  lemma LastsAgree(a: seq<CredentialId>, b: seq<CredentialId>, key: CredentialId -> nat)
    requires SortedBy(a, key) && SortedBy(b, key) && multiset(a) == multiset(b) && a != []
    requires Injective(key)
    ensures |a| == |b| && a[|a| - 1] == b[|b| - 1]
    ensures multiset(a[..|a| - 1]) == multiset(b[..|a| - 1])
  {
    SameElements(a, b, a[|a| - 1]);
    SameElements(a, b, b[|b| - 1]);
    LastIsGreatest(a, key, b[|b| - 1]);
    LastIsGreatest(b, key, a[|a| - 1]);
    WithoutLast(a);
    WithoutLast(b);
  }

  lemma WithoutLast(a: seq<CredentialId>)
    requires a != []
    ensures multiset(a[..|a| - 1]) == multiset(a) - multiset{a[|a| - 1]}
  {
    assert a == a[..|a| - 1] + [a[|a| - 1]];
  }

  lemma FrontIsSorted(a: seq<CredentialId>, key: CredentialId -> nat)
    requires a != [] && SortedBy(a, key)
    ensures SortedBy(a[..|a| - 1], key)
  {
  }

  ghost predicate Injective(key: CredentialId -> nat) {
    forall x, y :: key(x) == key(y) ==> x == y
  }

  /** With an injective ordering key there is only one sorted order. */
  lemma {:induction false} SortedIsUnique(a: seq<CredentialId>, b: seq<CredentialId>, key: CredentialId -> nat)
    requires SortedBy(a, key) && SortedBy(b, key) && multiset(a) == multiset(b)
    requires Injective(key)
    ensures a == b
    decreases |a|
  {
    if a == [] {
      assert multiset(b) == multiset{};
    } else {
      var n := |a| - 1;
      LastsAgree(a, b, key);
      FrontIsSorted(a, key);
      FrontIsSorted(b, key);
      SortedIsUnique(a[..n], b[..n], key);
      assert a == a[..n] + [a[n]] && b == b[..n] + [b[n]];
    }
  }

  // ---- the list ----

  /** `n` is the number of slots tried: the first at which the list is full. */
  ghost predicate Tried(genuine: set<CredentialId>, h: Hashes, n: nat) {
    && |genuine| + |Fillers(genuine, h, n)| >= SLOTS
    && (n > 0 ==> |genuine| + |Fillers(genuine, h, n - 1)| < SLOTS)
  }

  lemma TriedIsUnique(genuine: set<CredentialId>, h: Hashes, m: nat, n: nat)
    requires Tried(genuine, h, m) && Tried(genuine, h, n)
    ensures m == n
  {
    if m < n {
      FillersGrow(genuine, h, m, n - 1);
    } else if n < m {
      FillersGrow(genuine, h, n, m - 1);
    }
  }

  /** What the login page may learn: exactly ten distinct ids (or all, if there are more), the real ones
      among them, in hash order. */
  ghost predicate AllowList(ids: seq<CredentialId>, genuine: set<CredentialId>, h: Hashes, n: nat) {
    && Tried(genuine, h, n) && n <= SLOTS
    && Distinct(ids) && Elements(ids) == genuine + Elements(Fillers(genuine, h, n))
    && |ids| == (if |genuine| < SLOTS then SLOTS else |genuine|)
    && SortedBy(ids, h.order)
  }

  /** `_login_credential_ids`; the credentials come in any order. */
  method LoginCredentialIds(credentials: seq<CredentialId>, h: Hashes) returns (ids: seq<CredentialId>, slot: nat)
    requires Distinct(credentials) && FillersDiffer(h)
    ensures AllowList(ids, Elements(credentials), h, slot)
    ensures |ids| == (if |credentials| < 10 then 10 else |credentials|) && slot <= 10
    ensures forall c :: c in credentials ==> c in ids
    ensures forall c :: c in ids ==> c in credentials || exists i :: 0 <= i < slot && h.filler(i) == c
  {
    DistinctSize(credentials);
    var fillers;
    fillers, slot := FillSlots(credentials, h);
    FillersFitExactly(Elements(credentials), h, slot);
    ids := Extended(credentials, fillers);
    SortSorts(ids, h.order);
    SortKeeps(ids, h.order);
    SortKeepsElements(ids, Sort(ids, h.order));
    ids := Sort(ids, h.order);
    ListMeans(ids, credentials, h, slot);
  }

  lemma ListMeans(ids: seq<CredentialId>, credentials: seq<CredentialId>, h: Hashes, n: nat)
    requires Distinct(credentials) && AllowList(ids, Elements(credentials), h, n)
    ensures |ids| == (if |credentials| < 10 then 10 else |credentials|) && n <= 10
    ensures forall c :: c in credentials ==> c in ids
    ensures forall c :: c in ids ==> c in credentials || exists i :: 0 <= i < n && h.filler(i) == c
  {
    DistinctSize(credentials);
    forall c
      ensures c in credentials ==> c in ids
      ensures c in ids ==> c in credentials || exists i :: 0 <= i < n && h.filler(i) == c
    {
      FromSlots(Elements(credentials), h, n, c);
      assert c in ids <==> c in Elements(ids);
      assert c in Elements(ids) <==> c in Elements(credentials) || c in Elements(Fillers(Elements(credentials), h, n));
    }
  }

  /** The filling loop, which ends after at most ten slots. */
  method FillSlots(credentials: seq<CredentialId>, h: Hashes) returns (fillers: set<CredentialId>, slot: nat)
    requires Distinct(credentials) && FillersDiffer(h)
    ensures Tried(Elements(credentials), h, slot) && slot <= SLOTS
    ensures fillers == Elements(Fillers(Elements(credentials), h, slot))
  {
    ghost var genuine := Elements(credentials);
    DistinctSize(credentials);
    fillers, slot := {}, 0;
    while |credentials| + |fillers| < SLOTS
      invariant fillers == Elements(Fillers(genuine, h, slot)) && |fillers| == |Fillers(genuine, h, slot)|
      invariant slot <= SLOTS
      invariant slot > 0 ==> |genuine| + |Fillers(genuine, h, slot - 1)| < SLOTS
      decreases SLOTS - slot
    {
      FewSlots(genuine, h, slot);
      var filler := h.filler(slot);
      if filler !in credentials {
        fillers := fillers + {filler};
      }
      slot := slot + 1;
      SlotsAreFillersOrHits(genuine, h, slot);
      DistinctSize(Fillers(genuine, h, slot));
    }
  }

  /** `list.extend` with a set, in any order. */
  method Extended(credentials: seq<CredentialId>, fillers: set<CredentialId>) returns (ids: seq<CredentialId>)
    requires Distinct(credentials) && fillers !! Elements(credentials)
    ensures Distinct(ids) && Elements(ids) == Elements(credentials) + fillers
    ensures |ids| == |credentials| + |fillers|
  {
    ids := credentials;
    var rest := fillers;
    while rest != {}
      invariant rest <= fillers && rest !! Elements(ids)
      invariant Distinct(ids) && Elements(ids) + rest == Elements(credentials) + fillers
    {
      var f :| f in rest;
      assert f !in Elements(ids);
      assert Elements(ids + [f]) == Elements(ids) + {f};
      ids := ids + [f];
      rest := rest - {f};
    }
    DistinctSize(credentials);
    DistinctSize(ids);
  }

  lemma FillersFitExactly(genuine: set<CredentialId>, h: Hashes, n: nat)
    requires FillersDiffer(h) && Tried(genuine, h, n)
    ensures Elements(Fillers(genuine, h, n)) !! genuine
    ensures |genuine| + |Elements(Fillers(genuine, h, n))| == if |genuine| < SLOTS then SLOTS else |genuine|
  {
    HitsAreGenuine(genuine, h, n);
    SlotsAreFillersOrHits(genuine, h, n);
    DistinctSize(Fillers(genuine, h, n));
  }

  lemma SortKeepsElements(a: seq<CredentialId>, b: seq<CredentialId>)
    requires Distinct(a) && multiset(a) == multiset(b)
    ensures Distinct(b) && Elements(b) == Elements(a) && |b| == |a|
  {
    forall x
      ensures x in a <==> x in b
    {
      SameElements(a, b, x);
    }
    SameElements(a, b, CredentialId([]));
    DistinctCounts(a);
    CountsDistinct(b);
  }

  lemma {:induction false} DistinctCounts(s: seq<CredentialId>)
    requires Distinct(s)
    ensures forall x :: multiset(s)[x] <= 1
  {
    if s != [] {
      var front, last := s[..|s| - 1], s[|s| - 1];
      assert s == front + [last];
      DistinctCounts(front);
      assert forall i :: 0 <= i < |front| ==> s[i] == front[i] != last;
      assert last !in multiset(front);
    }
  }

  lemma {:induction false} CountsDistinct(s: seq<CredentialId>)
    requires forall x :: multiset(s)[x] <= 1
    ensures Distinct(s)
  {
    if s != [] {
      var front, last := s[..|s| - 1], s[|s| - 1];
      assert s == front + [last];
      assert forall x :: multiset(front)[x] <= multiset(s)[x];
      CountsDistinct(front);
      assert multiset(s)[last] == multiset(front)[last] + 1;
      assert last !in front;
      assert forall i :: 0 <= i < |front| ==> s[i] == front[i] != last;
    }
  }

  /** The list depends on the set of real credentials only, not on the order in which they come. */
  lemma ListIsCanonical(a: seq<CredentialId>, b: seq<CredentialId>, genuine: set<CredentialId>, h: Hashes,
                        m: nat, n: nat)
    requires AllowList(a, genuine, h, m) && AllowList(b, genuine, h, n)
    requires Injective(h.order)
    ensures a == b
  {
    TriedIsUnique(genuine, h, m, n);
    DistinctCounts(a);
    DistinctCounts(b);
    forall x
      ensures multiset(a)[x] == multiset(b)[x]
    {
      assert x in a <==> x in Elements(a);
      assert x in b <==> x in Elements(b);
      assert x in a <==> x in multiset(a);
      assert x in b <==> x in multiset(b);
    }
    SortedIsUnique(a, b, h.order);
  }
}
