/** The quarantine's file repository: two files per record, written and removed by a process that may
    die, or be refused a file operation, at any step. */
module QuarantineStore {
  import opened Bytes
  import opened Options

  datatype Kind = Quarantine | Greylist

  /** A quarantine UUID in canonical form, a 64-digit message key, or anything else. */
  datatype Id = Uuid(n: nat) | MessageKey(n: nat) | BadId

  datatype KindField = Missing | Named(kind: Kind) | OtherText | NotADict

  /** The `received` entry: missing or empty, not a time, or a time in seconds. */
  datatype Stamp = NoStamp | Unreadable | At(time: int)

  /** Parsed metadata: the `kind` and `received` entries and the rest. */
  datatype Metadata = Metadata(kindField: KindField, received: Stamp, rest: string)

  datatype Content = Message(text: bytes) | Json(meta: Metadata) | Partial
  datatype File = File(content: Content, mtime: int)
  datatype Name = Eml(id: Id) | Meta(id: Id) | Temp(n: nat)

  type Disk = map<Name, File>

  /** `_kind` */
  function KindOf(m: Metadata): Option<Kind> {
    match m.kindField
    case Missing => Some(Quarantine)
    case Named(k) => Some(k)
    case OtherText => None
    case NotADict => None
  }

  const DAY := 86400

  predicate Expired(file: File, m: Metadata, days: int, kind: Kind, now: int) {
    if kind.Quarantine? then file.mtime < now - days * DAY
    else !m.received.At? || now - m.received.time > days * DAY
  }

  datatype Policy = Policy(now: int, quarantineDays: int, greylistDays: int)

  /** A metadata file the cleanup keeps. */
  predicate Lives(file: File, p: Policy) {
    && file.content.Json?
    && var kind := KindOf(file.content.meta);
    && kind.Some?
    && var days := if kind.value.Quarantine? then p.quarantineDays else p.greylistDays;
    && days != 0 && !Expired(file, file.content.meta, days, kind.value, p.now)
  }

  predicate Keeps(d: Disk, name: Name, p: Policy) {
    match name
    case Temp(_) => true
    case Meta(id) => name in d && Lives(d[name], p)
    case Eml(id) => Meta(id) in d && Lives(d[Meta(id)], p)
  }

  /** The disk a completed cleanup leaves. */
  function Cleaned(d: Disk, p: Policy): Disk {
    map name | name in d && Keeps(d, name, p) :: d[name]
  }

  /** A second cleanup at the same time finds nothing to do. */
  lemma CleaningIsIdempotent(d: Disk, p: Policy)
    ensures Cleaned(Cleaned(d, p), p) == Cleaned(d, p)
  {
    var c := Cleaned(d, p);
    forall name | name in c
      ensures Keeps(c, name, p)
    {
    }
  }

  /** What a cleaned disk has got rid of: orphaned messages, and metadata that is unreadable, of no
      known kind, or expired. */
  lemma CleanedHasNoLeftovers(d: Disk, p: Policy, id: Id)
    ensures Eml(id) in Cleaned(d, p) ==> Meta(id) in Cleaned(d, p)
    ensures Meta(id) in Cleaned(d, p) ==>
              && Cleaned(d, p)[Meta(id)].content.Json?
              && var m := Cleaned(d, p)[Meta(id)].content.meta;
              && KindOf(m).Some?
              && if KindOf(m).value.Quarantine? then p.now - Cleaned(d, p)[Meta(id)].mtime <= p.quarantineDays * 86400
                 else m.received.At? && p.now - m.received.time <= p.greylistDays * 86400
  {
  }

  /** The arguments of the `store` calls for each id, in order, whatever became of them. */
  datatype Call = Call(raw: Option<bytes>, record: Metadata)
  type Calls = map<Id, seq<Call>>

  function CallsOf(calls: Calls, id: Id): seq<Call> {
    if id in calls then calls[id] else []
  }

  ghost predicate IsRecord(content: Content, calls: seq<Call>) {
    exists c :: c in calls && content == Json(c.record)
  }

  ghost predicate IsMessage(content: Content, calls: seq<Call>) {
    exists c :: c in calls && c.raw.Some? && content == Message(c.raw.value)
  }

  /** Each file of a record stems, complete, from a `store` call for its id. */
  ghost predicate FromCalls(d: Disk, calls: Calls, id: Id) {
    && (Meta(id) in d ==> IsRecord(d[Meta(id)].content, CallsOf(calls, id)))
    && (Eml(id) in d ==> IsMessage(d[Eml(id)].content, CallsOf(calls, id)))
  }

  ghost predicate Consistent(d: Disk, calls: Calls) {
    forall id :: FromCalls(d, calls, id)
  }

  /** `store` writes the kind that goes with the form of the id. */
  ghost predicate RightKinds(calls: Calls) {
    forall id :: id in calls ==> RightKind(id, calls[id])
  }

  ghost predicate RightKind(id: Id, calls: seq<Call>) {
    !id.BadId? && forall c :: c in calls ==> c.record.kindField == Named(if id.Uuid? then Quarantine else Greylist)
  }

  datatype Entry = Entry(id: Id, meta: Metadata, size: Option<nat>)

  function Size(file: File): nat {
    if file.content.Message? then |file.content.text| else 0
  }

  /** The entry of a metadata file in the listing, if it gets one. */
  function Listed(d: Disk, id: Id, wanted: Option<Kind>): Option<Entry> {
    if Meta(id) !in d || !d[Meta(id)].content.Json? then None
    else
      var m := d[Meta(id)].content.meta;
      var kind := KindOf(m);
      if kind.None? || (wanted.Some? && kind != wanted) then None
      else if kind.value.Quarantine? && Eml(id) !in d then None
      else Some(Entry(id, m.(kindField := Named(kind.value)), if Eml(id) in d then Some(Size(d[Eml(id)])) else None))
  }

  function Renamed(d: Disk, source: Name, target: Name): Disk
    requires source in d
  {
    (d - {source})[target := d[source]]
  }

  // ---- messages beside their own metadata ----

  ghost predicate IsPairOf(d: Disk, id: Id, c: Call) {
    && Meta(id) in d && d[Meta(id)].content == Json(c.record)
    && Eml(id) in d && c.raw.Some? && d[Eml(id)].content == Message(c.raw.value)
  }

  /** When both files of a record are there, they are those of one call. */
  ghost predicate Paired(d: Disk, calls: Calls, id: Id) {
    Meta(id) in d && Eml(id) in d ==> exists c :: c in CallsOf(calls, id) && IsPairOf(d, id, c)
  }

  /** A listed record that is paired has the metadata and the message of one call. */
  lemma ListedIsOneCall(d: Disk, calls: Calls, id: Id, wanted: Option<Kind>) returns (call: Call)
    requires Consistent(d, calls) && RightKinds(calls) && Paired(d, calls, id)
    requires Listed(d, id, wanted).Some?
    ensures call in CallsOf(calls, id) && Listed(d, id, wanted).value.meta == call.record
    ensures Eml(id) in d ==>
              && call.raw.Some? && d[Eml(id)].content == Message(call.raw.value)
              && Listed(d, id, wanted).value.size == Some(|call.raw.value|)
    ensures id.Uuid? ==> Eml(id) in d
  {
    assert FromCalls(d, calls, id);
    call :| call in CallsOf(calls, id) && d[Meta(id)].content == Json(call.record) &&
            (Eml(id) in d ==> IsPairOf(d, id, call));
    assert RightKind(id, calls[id]);
  }

  /** What is stored by one call only cannot be mixed. */
  lemma OnceIsPaired(d: Disk, calls: Calls, id: Id, call: Call)
    requires Consistent(d, calls) && CallsOf(calls, id) == [call]
    ensures Paired(d, calls, id)
  {
    assert FromCalls(d, calls, id);
    if Meta(id) in d && Eml(id) in d {
      assert IsPairOf(d, id, call);
    }
  }

  /** How far a call of `store` has got with the two files of its id. */
  datatype Stage = Untouched | MessageOnly | Complete

  predicate SameFile(d: Disk, e: Disk, name: Name) {
    (name in e <==> name in d) && (name in e ==> e[name] == d[name])
  }

  predicate HasFile(d: Disk, name: Name, file: File) {
    name in d && d[name] == file
  }

  predicate Leaves(d: Disk, e: Disk, id: Id, call: Call, now: int, stage: Stage) {
    match stage
    case Untouched => SameFile(d, e, Eml(id)) && SameFile(d, e, Meta(id))
    case MessageOnly =>
      && call.raw.Some? && HasFile(e, Eml(id), File(Message(call.raw.value), now))
      && SameFile(d, e, Meta(id))
    case Complete =>
      && HasFile(e, Meta(id), File(Json(call.record), now))
      && if call.raw.Some? then HasFile(e, Eml(id), File(Message(call.raw.value), now)) else SameFile(d, e, Eml(id))
  }

  /** However the call ends, the record of its id is paired. */
  ghost predicate StoreKeepsPair(d: Disk, calls: Calls, id: Id, call: Call, now: int) {
    forall e, stage :: Leaves(d, e, id, call, now, stage) ==> Paired(e, WithCall(calls, id, call), id)
  }

  /** The message to come goes with the metadata on disk, or, for a call without one, the metadata to
      come with the message on disk: some call had both. */
  ghost predicate GoesTogether(d: Disk, calls: seq<Call>, id: Id, call: Call) {
    if call.raw.Some? then
      Meta(id) in d ==> exists c :: c in calls && d[Meta(id)].content == Json(c.record) && c.raw == call.raw
    else
      Eml(id) in d ==>
        exists c :: c in calls && c.record == call.record && c.raw.Some? && d[Eml(id)].content == Message(c.raw.value)
  }

  /** When a call of `store` keeps its record paired in every outcome. */
  lemma StoreKeepsPairExactlyWhen(d: Disk, calls: Calls, id: Id, call: Call, now: int)
    requires Paired(d, calls, id)
    ensures StoreKeepsPair(d, calls, id, call, now) <==> GoesTogether(d, CallsOf(calls, id) + [call], id, call)
  {
    var more := WithCall(calls, id, call);
    if StoreKeepsPair(d, calls, id, call, now) {
      MixedOutcome(d, calls, id, call, now);
    }
    if GoesTogether(d, CallsOf(more, id), id, call) {
      forall e, stage | Leaves(d, e, id, call, now, stage)
        ensures Paired(e, more, id)
      {
        OutcomeIsPaired(d, calls, id, call, now, e, stage);
      }
    }
  }

  lemma MixedOutcome(d: Disk, calls: Calls, id: Id, call: Call, now: int)
    requires StoreKeepsPair(d, calls, id, call, now)
    ensures GoesTogether(d, CallsOf(calls, id) + [call], id, call)
  {
    var more := WithCall(calls, id, call);
    if call.raw.Some? {
      var e := d[Eml(id) := File(Message(call.raw.value), now)];
      assert Leaves(d, e, id, call, now, MessageOnly) && Paired(e, more, id);
      if Meta(id) in d {
        var c :| c in CallsOf(more, id) && IsPairOf(e, id, c);
      }
    } else {
      var e := d[Meta(id) := File(Json(call.record), now)];
      assert Leaves(d, e, id, call, now, Complete) && Paired(e, more, id);
      if Eml(id) in d {
        var c :| c in CallsOf(more, id) && IsPairOf(e, id, c);
      }
    }
  }

  lemma OutcomeIsPaired(d: Disk, calls: Calls, id: Id, call: Call, now: int, e: Disk, stage: Stage)
    requires Paired(d, calls, id) && GoesTogether(d, CallsOf(calls, id) + [call], id, call)
    requires Leaves(d, e, id, call, now, stage)
    ensures Paired(e, WithCall(calls, id, call), id)
  {
    var more := CallsOf(calls, id) + [call];
    if Meta(id) in e && Eml(id) in e {
      match stage
      case Untouched =>
        var c :| c in CallsOf(calls, id) && IsPairOf(d, id, c);
        assert c in more && IsPairOf(e, id, c);
      case MessageOnly =>
        var c :| c in more && d[Meta(id)].content == Json(c.record) && c.raw == call.raw;
        assert IsPairOf(e, id, c);
      case Complete =>
        if call.raw.Some? {
          assert call in more && IsPairOf(e, id, call);
        } else {
          var c :| c in more && c.record == call.record && c.raw.Some? && d[Eml(id)].content == Message(c.raw.value);
          assert IsPairOf(e, id, c);
        }
    }
  }

  /** The calls that `store` does not refuse. */
  predicate Storable(id: Id, call: Call) {
    && !id.BadId? && call.record.kindField == Named(if id.Uuid? then Quarantine else Greylist)
    && !call.record.received.NoStamp?
    && (id.Uuid? ==> call.raw.Some? && call.raw.value != [])
  }

  /** All calls with a message are safe if and only if there is no metadata of the id on disk, and all
      calls without one if and only if there is no message. */
  lemma AnyStoreKeepsPairExactlyWhen(d: Disk, calls: Calls, id: Id, now: int, message: bool)
    requires Paired(d, calls, id) && !id.BadId? && (id.Uuid? ==> message)
    ensures (forall call :: Storable(id, call) && call.raw.Some? == message ==> StoreKeepsPair(d, calls, id, call, now))
            <==> if message then Meta(id) !in d else Eml(id) !in d
  {
    var meta := if Meta(id) in d && d[Meta(id)].content.Json? then d[Meta(id)].content.meta
                else Metadata(Missing, NoStamp, "");
    var seen := CallsOf(calls, id) + [Call(None, meta)];
    var raw, rest := NewContent(seen);
    var kind := Named(if id.Uuid? then Quarantine else Greylist);
    var odd := Call(if message then Some(raw) else None, Metadata(kind, At(now), rest));
    assert seen[|seen| - 1] in seen && forall c :: c in CallsOf(calls, id) ==> c in seen;
    assert Storable(id, odd) && odd.raw.Some? == message;
    StoreKeepsPairExactlyWhen(d, calls, id, odd, now);
    if (if message then Meta(id) !in d else Eml(id) !in d) {
      forall call | Storable(id, call) && call.raw.Some? == message
        ensures StoreKeepsPair(d, calls, id, call, now)
      {
        StoreKeepsPairExactlyWhen(d, calls, id, call, now);
      }
    }
  }

  /** There is always a message, and metadata, that no call has had yet. */
  lemma {:induction false} NewContent(calls: seq<Call>) returns (raw: bytes, rest: string)
    ensures raw != [] && rest != ""
    ensures forall c :: c in calls ==>
              (c.raw.Some? ==> |c.raw.value| < |raw|) && |c.record.rest| < |rest|
  {
    if calls == [] {
      raw, rest := [0], " ";
    } else {
      var c := calls[0];
      raw, rest := NewContent(calls[1..]);
      raw := raw + (if c.raw.Some? then c.raw.value else []);
      rest := rest + c.record.rest;
      assert forall x :: x in calls ==> x == c || x in calls[1..];
    }
  }

  /** A process that dies between the two renames leaves the new message with the old metadata, and
      the listing shows them as one record. */
  lemma SecondStoreCanMix(d: Disk, e: Disk, id: Id, first: Call, second: Call, now: int, wanted: Option<Kind>)
    requires Meta(id) in d && d[Meta(id)].content == Json(first.record) && KindOf(first.record).Some?
    requires wanted.Some? ==> wanted == KindOf(first.record)
    requires Leaves(d, e, id, second, now, MessageOnly)
    ensures var meta := first.record.(kindField := Named(KindOf(first.record).value));
            Listed(e, id, wanted) == Some(Entry(id, meta, Some(|second.raw.value|)))
    ensures e[Eml(id)].content == Message(second.raw.value)
  {
  }

  /** The metadata `store` writes. */
  function RecordOf(m: Metadata, kind: Kind, now: int): Metadata {
    m.(kindField := Named(kind), received := if m.received.NoStamp? then At(now) else m.received)
  }

  /** Ids whose metadata is readable but not to be kept, and ids of messages without metadata. */
  function Overdue(d: Disk, p: Policy): set<Id> {
    set name | name in d.Keys && name.Meta? && d[name].content.Json? && !Lives(d[name], p) :: name.id
  }

  function Doomed(d: Disk, p: Policy): set<Id> {
    set name | name in d.Keys && name.Meta? && !Lives(d[name], p) :: name.id
  }

  function Orphans(d: Disk): set<Id> {
    set name | name in d.Keys && name.Eml? && Meta(name.id) !in d :: name.id
  }

  /** The disk without both files of some records. */
  function Without(d: Disk, ids: set<Id>): Disk {
    map name | name in d && (name.Temp? || name.id !in ids) :: d[name]
  }

  lemma CleanedIsWithout(d: Disk, p: Policy)
    ensures Cleaned(d, p) == Without(d, Doomed(d, p) + Orphans(d))
  {
    forall name | name in d && !name.Temp?
      ensures Keeps(d, name, p) <==> name.id !in Doomed(d, p) + Orphans(d)
    {
      if Meta(name.id) in d && !Lives(d[Meta(name.id)], p) {
        assert name.id in Doomed(d, p);
      }
      if name.Eml? && Meta(name.id) !in d {
        assert name.id in Orphans(d);
      }
    }
  }

  /** A record `delete` finds, of the kind it is asked for. */
  predicate Deletable(d: Disk, id: Id, kind: Option<Kind>) {
    && !id.BadId? && Meta(id) in d && d[Meta(id)].content.Json?
    && (kind.Some? ==> KindOf(d[Meta(id)].content.meta) == kind)
  }

  // ---- the process ----

  datatype StoreResult = Stored | InvalidIdentity | InvalidContent | OsError

  /** What becomes of the next file operation. */
  datatype Fate = Works | Refused | Dies

  /** A process and the fates of its next file operations; after those, everything works. A dead
      process does nothing until the next one starts. */
  datatype Process = Process(alive: bool, script: seq<Fate>) {
    predicate Ok() {
      alive && (script == [] || script[0].Works?)
    }

    function Next(): Process {
      if !alive || script == [] then this else Process(!script[0].Dies?, script[1..])
    }

    /** The next `n` file operations all work. */
    predicate Works(n: nat)
      decreases n
    {
      n == 0 || (Ok() && Next().Works(n - 1))
    }

    function After(n: nat): Process
      decreases n
    {
      if n == 0 then this else Next().After(n - 1)
    }

    predicate Calm() {
      alive && script == []
    }

    /** Where this leaves a call of `store`, which takes six operations, or three without a message. */
    function StageOf(message: bool): Stage {
      if Works(if message then 6 else 3) then Complete
      else if message && Works(5) then MessageOnly
      else Untouched
    }
  }

  /** The next few operations, one by one. */
  lemma UnfoldWorks(p: Process)
    ensures p.Works(1) <==> p.Ok()
    ensures p.Works(2) <==> p.Ok() && p.Next().Ok()
    ensures p.Works(4) <==> p.Ok() && p.Next().Ok() && p.Next().Next().Ok() && p.Next().Next().Next().Ok()
    ensures p.After(2) == p.Next().Next() && p.After(4) == p.Next().Next().Next().Next()
  {
    WorksSplit(p, 2, 2);
    var q := p.Next().Next();
    assert p.After(2) == q && (q.Works(2) <==> q.Ok() && q.Next().Ok());
    assert q.After(2) == q.Next().Next();
    assert p.Next().After(3) == q.After(2);
  }

  /** `store` writes its temporary files and then renames them. */
  lemma StagesOfStore(p: Process, message: bool)
    ensures var n := if message then 4 else 2;
            p.StageOf(message) ==
            if p.Works(n) && p.After(n).Works(if message then 2 else 1) then Complete
            else if message && p.Works(n) && p.After(n).Works(1) then MessageOnly
            else Untouched
  {
    WorksSplit(p, 4, 2);
    WorksSplit(p, 4, 1);
    WorksSplit(p, 2, 1);
  }

  lemma CalmNever(p: Process)
    ensures p.Calm() ==> p.Works(2)
  {
    if p.Calm() {
      CalmWorks(p, 2);
    }
  }

  lemma {:induction false} WorksSplit(p: Process, m: nat, n: nat)
    ensures p.Works(m + n) <==> p.Works(m) && p.After(m).Works(n)
    decreases m
  {
    if m > 0 {
      WorksSplit(p.Next(), m - 1, n);
    }
  }

  lemma {:induction false} CalmWorks(p: Process, n: nat)
    requires p.Calm()
    ensures p.Works(n) && p.Next() == p && p.After(n) == p
    decreases n
  {
    if n > 0 {
      CalmWorks(p, n - 1);
    }
  }

  lemma {:induction false} DiesAfter(p: Process, n: nat)
    requires p.alive && |p.script| == n + 1 && p.script[n].Dies? && forall i :: 0 <= i < n ==> p.script[i].Works?
    ensures p.Works(n) && !p.Works(n + 1)
    decreases n
  {
    if n > 0 {
      DiesAfter(p.Next(), n - 1);
    }
  }

  /** Every stage is the outcome of some process. */
  lemma EveryStageHappens(stage: Stage, message: bool)
    requires stage.MessageOnly? ==> message
    ensures exists p: Process :: p.StageOf(message) == stage
  {
    var p := Process(true, match stage
                           case Complete => []
                           case MessageOnly => [Works, Works, Works, Works, Works, Dies]
                           case Untouched => [Dies]);
    if stage.Complete? {
      CalmWorks(p, if message then 6 else 3);
    } else if stage.MessageOnly? {
      DiesAfter(p, 5);
    }
    assert p.StageOf(message) == stage;
  }

  /** The disk after the two unlinks of a record. */
  function AfterUnlinks(d: Disk, id: Id, p: Process): Disk {
    if p.Works(2) then d - {Eml(id), Meta(id)} else if p.Works(1) then d - {Eml(id)} else d
  }

  class Repository {
    var files: Disk
    var temps: nat
    var process: Process
    // history
    ghost var calls: Calls

    /** Any disk will do, as long as new temporary files get new names. */
    ghost predicate Tidy()
      reads this
    {
      forall name :: name in files && name.Temp? ==> name.n < temps
    }

    /** All records on the disk come from `store`. */
    ghost predicate Valid()
      reads this
    {
      Tidy() && Consistent(files, calls) && RightKinds(calls)
    }

    constructor ()
      ensures Valid() && files == map[] && calls == map[] && process.Calm()
    {
      files, temps, process, calls := map[], 0, Process(true, []), map[];
    }

    /** A new process, with any fate for each of its file operations. */
    method Restart(script: seq<Fate>)
      requires Tidy()
      modifies this
      ensures Tidy() && (old(Valid()) ==> Valid())
      ensures process == Process(true, script) && files == old(files) && calls == old(calls)
    {
      process := Process(true, script);
    }

    method Attempt() returns (ok: bool)
      modifies `process
      ensures ok == old(process).Ok() && process == old(process).Next()
    {
      ok := process.Ok();
      process := process.Next();
    }

    /** `mkstemp`: a new file under a name no glob picks up. */
    method MakeTemp(now: int) returns (ok: bool, name: Name)
      requires Tidy()
      modifies this
      ensures Tidy() && (old(Valid()) ==> Valid()) && calls == old(calls)
      ensures name.Temp? && name !in old(files)
      ensures files == if ok then old(files)[name := File(Partial, now)] else old(files)
      ensures ok == old(process).Ok() && process == old(process).Next()
    {
      name := Temp(temps);
      ok := Attempt();
      if ok {
        FewerConsistent(files, files[name := File(Partial, now)], calls);
        temps := temps + 1;
        files := files[name := File(Partial, now)];
      }
    }

    /** Writing a temporary file; an interrupted write leaves part of it. */
    method WriteTemp(name: Name, content: Content, now: int) returns (ok: bool)
      requires Tidy() && name.Temp? && name in files
      modifies this
      ensures Tidy() && (old(Valid()) ==> Valid()) && calls == old(calls)
      ensures files == old(files)[name := File(if ok then content else Partial, now)]
      ensures ok == old(process).Ok() && process == old(process).Next()
    {
      ok := Attempt();
      FewerConsistent(files, files[name := File(if ok then content else Partial, now)], calls);
      files := files[name := File(if ok then content else Partial, now)];
    }

    /** `os.replace`, atomically. */
    method Replace(source: Name, target: Name) returns (ok: bool)
      requires Tidy() && source.Temp? && source in files && !target.Temp?
      requires Valid() ==> FromCalls(Renamed(files, source, target), calls, target.id)
      modifies this
      ensures Tidy() && (old(Valid()) ==> Valid()) && calls == old(calls)
      ensures files == if ok then Renamed(old(files), source, target) else old(files)
      ensures ok == old(process).Ok() && process == old(process).Next()
    {
      ok := Attempt();
      if ok {
        if Valid() {
          ReplaceConsistent(files, calls, source, target);
        }
        files := Renamed(files, source, target);
      }
    }

    /** `unlink(missing_ok=True)` */
    method Unlink(name: Name) returns (ok: bool)
      requires Tidy()
      modifies this
      ensures Tidy() && (old(Valid()) ==> Valid()) && calls == old(calls)
      ensures files == if ok then old(files) - {name} else old(files)
      ensures ok == old(process).Ok() && process == old(process).Next()
    {
      ok := Attempt();
      if ok {
        FewerConsistent(files, files - {name}, calls);
        files := files - {name};
      }
    }

    /** The `finally` clause of `store`; a dead process does not reach it. */
    method DropTemps(message: Option<Name>, metadata: Name)
      requires Tidy() && metadata.Temp? && (message.Some? ==> message.value.Temp?)
      modifies this
      ensures Tidy() && (old(Valid()) ==> Valid()) && calls == old(calls)
      ensures forall name: Name :: !name.Temp? ==> SameFile(old(files), files, name)
      ensures old(process).Calm() ==> process.Calm()
    {
      if message.Some? {
        var _ := Unlink(message.value);
      }
      var _ := Unlink(metadata);
    }

    /** `store`: temporary files, then the message, then the metadata that makes the record visible. What
        becomes of the two files depends on how far the process gets. */
    method Store(id: Id, raw: Option<bytes>, metadata: Metadata, kind: Kind, now: int) returns (result: StoreResult)
      requires Tidy()
      modifies this
      ensures Tidy() && (old(Valid()) ==> Valid())
      ensures result.InvalidIdentity? <==> if kind.Quarantine? then !id.Uuid? else !id.MessageKey?
      ensures result.InvalidContent? <==> kind.Quarantine? && id.Uuid? && (raw.None? || raw.value == [])
      ensures result.InvalidIdentity? || result.InvalidContent? ==>
                files == old(files) && calls == old(calls) && process == old(process)
      ensures result.Stored? || result.OsError? ==>
                var call, stage := Call(raw, RecordOf(metadata, kind, now)), old(process).StageOf(raw.Some?);
                && calls == WithCall(old(calls), id, call) && Storable(id, call)
                && Leaves(old(files), files, id, call, now, stage) && (result.Stored? <==> stage.Complete?)
      ensures forall name: Name :: !name.Temp? && name.id != id ==> SameFile(old(files), files, name)
      ensures forall i :: i != id && old(Paired(files, calls, i)) ==> Paired(files, calls, i)
      ensures old(Paired(files, calls, id)) && (if raw.Some? then Meta(id) else Eml(id)) !in old(files) ==>
                Paired(files, calls, id)
      ensures old(process).Calm() ==> process.Calm()
    {
      if (kind.Quarantine? && !id.Uuid?) || (kind.Greylist? && !id.MessageKey?) {
        return InvalidIdentity;
      }
      if kind.Quarantine? && (raw.None? || raw.value == []) {
        return InvalidContent;
      }
      var call := Call(raw, RecordOf(metadata, kind, now));
      Announce(id, call);
      var ok, tempMessage, tempMeta := WriteTemps(call, now);
      if tempMeta.None? {
        result := OsError;
      } else {
        if ok {
          ok := Publish(id, call, now, tempMessage, tempMeta.value);
        }
        DropTemps(tempMessage, tempMeta.value);
        result := if ok then Stored else OsError;
      }
      StagesOfStore(old(process), raw.Some?);
      StillPaired(old(files), files, old(calls), id, call, now, old(process).StageOf(raw.Some?));
    }

    /** The temporary files of `store`, in four operations, or two without a message. */
    method WriteTemps(call: Call, now: int) returns (ok: bool, message: Option<Name>, metadata: Option<Name>)
      requires Tidy()
      modifies this
      ensures Tidy() && (old(Valid()) ==> Valid()) && calls == old(calls)
      ensures forall name: Name :: !name.Temp? ==> SameFile(old(files), files, name)
      ensures ok == old(process).Works(if call.raw.Some? then 4 else 2)
      ensures ok ==> process == old(process).After(if call.raw.Some? then 4 else 2)
      ensures old(process).Calm() ==> process.Calm()
      ensures (metadata.Some? ==> metadata.value.Temp?) && (message.Some? ==> message.value.Temp?)
      ensures ok ==>
                && metadata.Some? && HasFile(files, metadata.value, File(Json(call.record), now))
                && message.Some? == call.raw.Some? && message != metadata
                && (message.Some? ==> HasFile(files, message.value, File(Message(call.raw.value), now)))
    {
      message, metadata := None, None;
      ghost var p := process;
      UnfoldWorks(p);
      var meta;
      ok, meta := MakeTemp(now);
      if !ok {
        return;
      }
      metadata := Some(meta);
      if call.raw.Some? {
        var name;
        ok, name := MakeTemp(now);
        if ok {
          message := Some(name);
          ok := WriteTemp(name, Message(call.raw.value), now);
        }
      }
      if ok {
        ok := WriteTemp(meta, Json(call.record), now);
      }
    }

    /** The two renames: the message's, if there is one, before the metadata's. */
    method Publish(id: Id, call: Call, now: int, message: Option<Name>, metadata: Name) returns (ok: bool)
      requires Tidy() && call in CallsOf(calls, id)
      requires metadata.Temp? && HasFile(files, metadata, File(Json(call.record), now))
      requires message.Some? == call.raw.Some? && message != Some(metadata)
      requires message.Some? ==>
                 message.value.Temp? && HasFile(files, message.value, File(Message(call.raw.value), now))
      modifies this
      ensures Tidy() && (old(Valid()) ==> Valid()) && calls == old(calls)
      ensures ok == old(process).Works(if call.raw.Some? then 2 else 1)
      ensures var stage := if ok then Complete
                           else if call.raw.Some? && old(process).Works(1) then MessageOnly else Untouched;
              Leaves(old(files), files, id, call, now, stage)
      ensures forall name: Name :: !name.Temp? && name.id != id ==> SameFile(old(files), files, name)
      ensures old(process).Calm() ==> process.Calm()
    {
      UnfoldWorks(process);
      assert Valid() ==> FromCalls(files, calls, id);
      ok := true;
      if message.Some? {
        ok := Replace(message.value, Eml(id));
      }
      if ok {
        assert Valid() ==> FromCalls(files, calls, id);
        ok := Replace(metadata, Meta(id));
      }
    }

    ghost method Announce(id: Id, call: Call)
      requires Tidy() && !id.BadId? && call.record.kindField == Named(if id.Uuid? then Quarantine else Greylist)
      modifies `calls
      ensures Tidy() && (old(Valid()) ==> Valid())
      ensures calls == WithCall(old(calls), id, call) && call in CallsOf(calls, id)
    {
      MoreCalls(files, calls, id, call);
      assert Valid() && id in calls ==> RightKind(id, calls[id]);
      calls := WithCall(calls, id, call);
    }

    /** Both unlinks of a record, the message first. */
    method RemoveBoth(id: Id) returns (ok: bool)
      requires Tidy()
      modifies this
      ensures Tidy() && (old(Valid()) ==> Valid()) && calls == old(calls)
      ensures ok == old(process).Works(2)
      ensures files == AfterUnlinks(old(files), id, old(process))
      ensures old(process).Calm() ==> process.Calm()
    {
      UnfoldWorks(process);
      ok := Unlink(Eml(id));
      if ok {
        ok := Unlink(Meta(id));
        assert old(files) - {Eml(id)} - {Meta(id)} == old(files) - {Eml(id), Meta(id)};
      }
    }

    /** `delete`: exactly a readable record of the asked kind, and a refused unlink raises. */
    method Delete(id: Id, kind: Option<Kind>) returns (removed: bool, raised: bool)
      requires Tidy()
      modifies this
      ensures Tidy() && (old(Valid()) ==> Valid()) && calls == old(calls)
      ensures removed <==> Deletable(old(files), id, kind) && old(process).Works(2)
      ensures raised <==> Deletable(old(files), id, kind) && !old(process).Works(2)
      ensures files == old(files)
                       - (if !Deletable(old(files), id, kind) || !old(process).Works(1) then {}
                          else if old(process).Works(2) then {Eml(id), Meta(id)} else {Eml(id)})
      ensures forall i :: old(Paired(files, calls, i)) ==> Paired(files, calls, i)
      ensures old(process).Calm() ==> process.Calm() && !raised
    {
      removed, raised := false, false;
      if id.BadId? || Meta(id) !in files || !files[Meta(id)].content.Json? {
        return;
      }
      if kind.Some? && KindOf(files[Meta(id)].content.meta) != kind {
        return;
      }
      CalmNever(process);
      removed := RemoveBoth(id);
      raised := !removed;
      FewerPaired(old(files), files, calls);
    }

    /** `get`: a record of the expected kind that has not expired; one that has is deleted. */
    method Get(id: Id, kind: Kind, days: int, now: int) returns (entry: Option<Entry>)
      requires Tidy()
      modifies this
      ensures Tidy() && (old(Valid()) ==> Valid()) && calls == old(calls)
      ensures var named := (if kind.Quarantine? then id.Uuid? else id.MessageKey?)
                           && Deletable(old(files), id, Some(kind));
              var live := named && Eml(id) in old(files)
                          && var file, received := old(files)[Meta(id)], old(files)[Meta(id)].content.meta.received;
                          if kind.Quarantine? then now - file.mtime <= days * 86400
                          else received.At? && now - received.time <= days * 86400;
              && entry == (if live then Listed(old(files), id, Some(kind)) else None)
              && (live ==> entry.Some?)
              && files == old(files)
                          - (if !named || live || !old(process).Works(1) then {}
                             else if old(process).Works(2) then {Eml(id), Meta(id)} else {Eml(id)})
      ensures entry.Some? && Paired(files, calls, id) ==>
                exists c :: c in CallsOf(calls, id) && IsPairOf(files, id, c)
                            && entry.value == Entry(id, c.record.(kindField := Named(kind)), Some(|c.raw.value|))
                            && (Valid() ==> c.record.kindField == Named(kind))
      ensures forall i :: old(Paired(files, calls, i)) ==> Paired(files, calls, i)
      ensures old(process).Calm() ==> process.Calm()
    {
      if (kind.Quarantine? && !id.Uuid?) || (kind.Greylist? && !id.MessageKey?) {
        return None;
      }
      if Meta(id) !in files || !files[Meta(id)].content.Json? {
        return None;
      }
      var m := files[Meta(id)].content.meta;
      if KindOf(m) != Some(kind) {
        return None;
      }
      if Expired(files[Meta(id)], m, days, kind, now) || Eml(id) !in files {
        var _, _ := Delete(id, Some(kind));
        return None;
      }
      entry := Some(Entry(id, m.(kindField := Named(kind)), Some(Size(files[Eml(id)]))));
      if Paired(files, calls, id) {
        var c :| c in CallsOf(calls, id) && IsPairOf(files, id, c);
        assert Valid() ==> RightKind(id, calls[id]);
      }
    }

    /** `entries`, before sorting. */
    method Entries(wanted: Option<Kind>) returns (results: set<Entry>)
      ensures forall e :: e in results <==> Meta(e.id) in files && Listed(files, e.id, wanted) == Some(e)
    {
      results := {};
      var todo := set name | name in files.Keys && name.Meta? :: name.id;
      ghost var all := todo;
      while todo != {}
        invariant todo <= all
        invariant forall e :: e in results <==> e.id in all - todo && Listed(files, e.id, wanted) == Some(e)
      {
        var id :| id in todo;
        var e := Listed(files, id, wanted);
        if e.Some? {
          results := results + {e.value};
        }
        todo := todo - {id};
      }
    }

    /** `cleanup_expired`; it completes unless the process dies or an unlink is refused for good. */
    method CleanupExpired(p: Policy) returns (removed: int, completed: bool)
      requires Tidy()
      modifies this
      ensures Tidy() && (old(Valid()) ==> Valid()) && calls == old(calls)
      ensures completed ==> files == Cleaned(old(files), p)
      ensures Within(files, old(files))
      ensures forall i :: old(Paired(files, calls, i)) ==> Paired(files, calls, i)
      ensures old(process).Calm() ==>
                completed && removed == |Overdue(old(files), p)| + |Orphans(old(files))| && process.Calm()
    {
      removed, completed := DropDoomed(p);
      if completed {
        OrphansRemain(old(files), Doomed(old(files), p));
        CleanedIsWithout(old(files), p);
        var orphans;
        orphans, completed := DropOrphans();
        removed := removed + orphans;
      }
      FewerPaired(old(files), files, calls);
    }

    /** The first loop of the cleanup, over the metadata files. */
    method DropDoomed(p: Policy) returns (removed: int, completed: bool)
      requires Tidy()
      modifies this
      ensures Tidy() && (old(Valid()) ==> Valid()) && calls == old(calls)
      ensures completed ==> files == Without(old(files), Doomed(old(files), p))
      ensures Within(files, old(files))
      ensures old(process).Calm() ==> completed && removed == |Overdue(old(files), p)| && process.Calm()
    {
      removed, completed := 0, false;
      var todo := set name | name in files.Keys && name.Meta? :: name.id;
      ghost var d := files;
      AllToDo(d, Doomed(d, p), todo);
      AllToDo(d, Overdue(d, p), todo);
      while todo != {}
        invariant Tidy() && (old(Valid()) ==> Valid()) && calls == old(calls)
        invariant forall id :: id in todo ==> Meta(id) in d
        invariant files == Without(d, Doomed(d, p) - todo)
        invariant old(process).Calm() ==> process.Calm() && removed == |Overdue(d, p) - todo|
      {
        var id :| id in todo;
        DoomedStep(d, p, todo, id);
        if !Lives(files[Meta(id)], p) {
          var counts := files[Meta(id)].content.Json?;
          var ok, first := DropOne(id, counts, d, Doomed(d, p) - todo);
          if first && counts {
            removed := removed + 1;
          }
          if !ok {
            return;
          }
        }
        todo := todo - {id};
      }
      completed := true;
    }

    /** The loop body for a record that is not to be kept; `gone` are the ones removed before. */
    method DropOne(id: Id, retry: bool, ghost d: Disk, ghost gone: set<Id>) returns (ok: bool, first: bool)
      requires Tidy() && files == Without(d, gone)
      modifies this
      ensures Tidy() && (old(Valid()) ==> Valid()) && calls == old(calls) && Within(files, d)
      ensures ok ==> files == Without(d, gone + {id})
      ensures old(process).Calm() ==> ok && first && process.Calm()
    {
      WithoutStep(d, gone, id);
      ok, first := RemoveStubbornly(id, retry);
    }

    /** A record that could not be removed at first is treated like an invalid one; what cannot be
        removed then raises. */
    method RemoveStubbornly(id: Id, retry: bool) returns (ok: bool, first: bool)
      requires Tidy()
      modifies this
      ensures Tidy() && (old(Valid()) ==> Valid()) && calls == old(calls)
      ensures ok ==> files == old(files) - {Eml(id), Meta(id)}
      ensures !ok ==> files == old(files) || files == old(files) - {Eml(id)}
      ensures old(process).Calm() ==> ok && first && process.Calm()
    {
      ok := RemoveBoth(id);
      first := ok;
      if !ok && retry {
        ok := RemoveBoth(id);
        assert ok ==> files == old(files) - {Eml(id), Meta(id)};
        assert !ok ==> files == old(files) || files == old(files) - {Eml(id)};
      }
    }

    /** The second loop of the cleanup, over the message files. */
    method DropOrphans() returns (removed: int, completed: bool)
      requires Tidy()
      modifies this
      ensures Tidy() && (old(Valid()) ==> Valid()) && calls == old(calls)
      ensures completed ==> files == Without(old(files), Orphans(old(files))) && removed == |Orphans(old(files))|
      ensures Within(files, old(files))
      ensures old(process).Calm() ==> completed && process.Calm()
    {
      removed, completed := 0, false;
      var todo := set name | name in files.Keys && name.Eml? :: name.id;
      ghost var d, orphans := files, Orphans(files);
      AllToDo(d, orphans, todo);
      while todo != {}
        invariant Tidy() && (old(Valid()) ==> Valid()) && calls == old(calls)
        invariant forall id :: id in todo ==> Eml(id) in d
        invariant files == Without(d, orphans - todo) && removed == |orphans - todo|
        invariant old(process).Calm() ==> process.Calm()
      {
        var id :| id in todo;
        OrphanStep(d, orphans, todo, id);
        if Meta(id) !in files {
          var ok := DropOrphan(id, d, orphans - todo);
          if !ok {
            return;
          }
          removed := removed + 1;
        }
        todo := todo - {id};
      }
      completed := true;
    }

    method DropOrphan(id: Id, ghost d: Disk, ghost gone: set<Id>) returns (ok: bool)
      requires Tidy() && files == Without(d, gone) && Meta(id) !in d
      modifies this
      ensures Tidy() && (old(Valid()) ==> Valid()) && calls == old(calls)
      ensures files == if ok then Without(d, gone + {id}) else old(files)
      ensures old(process).Calm() ==> ok && process.Calm()
    {
      WithoutStep(d, gone, id);
      ok := Unlink(Eml(id));
    }
  }

  /** The cleanup of any disk, left in peace, removes an unreadable record and its message. */
  method CleanupOfUnreadable(repository: Repository, p: Policy, id: Id) returns (removed: int)
    requires repository.Tidy() && repository.process.Calm()
    requires Meta(id) in repository.files && !repository.files[Meta(id)].content.Json?
    modifies repository
    ensures Meta(id) !in repository.files && Eml(id) !in repository.files
    ensures removed == |Overdue(old(repository.files), p)| + |Orphans(old(repository.files))|
    ensures id !in Overdue(old(repository.files), p)
  {
    var completed;
    removed, completed := repository.CleanupExpired(p);
  }

  /** For a message key it takes no accident: a soft-rejected message, then a report of the same message
      without its text, and the old text stands beside the new metadata. */
  method StoreTwice(key: nat, text: bytes, first: Metadata, second: Metadata, earlier: int, now: int)
    returns (repository: Repository)
    ensures fresh(repository) && repository.Valid() && repository.process.Calm()
    ensures var id := MessageKey(key);
            var before, after := RecordOf(first, Greylist, earlier), RecordOf(second, Greylist, now);
            && Listed(repository.files, id, Some(Greylist)) == Some(Entry(id, after, Some(|text|)))
            && repository.files[Eml(id)].content == Message(text)
            && repository.calls == map[id := [Call(Some(text), before), Call(None, after)]]
            && (Paired(repository.files, repository.calls, id) <==> before == after)
  {
    var id := MessageKey(key);
    ghost var before := Call(Some(text), RecordOf(first, Greylist, earlier));
    ghost var after := Call(None, RecordOf(second, Greylist, now));
    repository := new Repository();
    CalmWorks(repository.process, 6);
    var stored := repository.Store(id, Some(text), first, Greylist, earlier);
    assert stored.Stored? && [] + [before] == [before];
    assert repository.calls == map[id := [before]];
    CalmWorks(repository.process, 3);
    stored := repository.Store(id, None, second, Greylist, now);
    assert stored.Stored? && [before] + [after] == [before, after];
    OlderMessage(repository.files, repository.calls, id, before, after);
  }

  lemma OlderMessage(d: Disk, calls: Calls, id: Id, before: Call, after: Call)
    requires CallsOf(calls, id) == [before, after] && before.raw.Some? && after.raw.None?
    requires Meta(id) in d && d[Meta(id)].content == Json(after.record)
    requires Eml(id) in d && d[Eml(id)].content == Message(before.raw.value)
    ensures Paired(d, calls, id) <==> before.record == after.record
  {
    if before.record == after.record {
      assert before in CallsOf(calls, id) && IsPairOf(d, id, before);
    }
  }

  /** Nothing but removals lies between `d` and `e`. */
  ghost predicate Within(e: Disk, d: Disk) {
    forall name :: name in e ==> name in d && e[name] == d[name]
  }

  lemma WithoutStep(d: Disk, gone: set<Id>, id: Id)
    ensures Without(d, gone) - {Eml(id), Meta(id)} == Without(d, gone + {id})
    ensures Meta(id) !in d ==> Without(d, gone) - {Eml(id)} == Without(d, gone + {id})
  {
  }

  /** Before the first turn of a loop nothing is done. */
  lemma AllToDo(d: Disk, ids: set<Id>, todo: set<Id>)
    requires ids <= todo
    ensures ids - todo == {} && Without(d, ids - todo) == d
  {
  }

  /** One turn of a loop takes an id off the list, which was to be dropped or not. */
  lemma TodoStep(ids: set<Id>, todo: set<Id>, id: Id)
    requires id in todo
    ensures ids - (todo - {id}) == if id in ids then ids - todo + {id} else ids - todo
    ensures |ids - (todo - {id})| == |ids - todo| + if id in ids then 1 else 0
  {
    assert ids - (todo - {id}) == if id in ids then ids - todo + {id} else ids - todo;
  }

  lemma DoomedStep(d: Disk, p: Policy, todo: set<Id>, id: Id)
    requires id in todo && Meta(id) in d
    ensures Meta(id) in Without(d, Doomed(d, p) - todo)
         && Without(d, Doomed(d, p) - todo)[Meta(id)] == d[Meta(id)]
    ensures var lives, json := Lives(d[Meta(id)], p), d[Meta(id)].content.Json?;
            && Doomed(d, p) - (todo - {id}) == (if lives then Doomed(d, p) - todo else Doomed(d, p) - todo + {id})
            && |Overdue(d, p) - (todo - {id})| == |Overdue(d, p) - todo| + (if !lives && json then 1 else 0)
  {
    assert id in Doomed(d, p) <==> !Lives(d[Meta(id)], p);
    assert id in Overdue(d, p) <==> !Lives(d[Meta(id)], p) && d[Meta(id)].content.Json?;
    TodoStep(Doomed(d, p), todo, id);
    TodoStep(Overdue(d, p), todo, id);
  }

  lemma OrphanStep(d: Disk, orphans: set<Id>, todo: set<Id>, id: Id)
    requires orphans == Orphans(d) && id in todo && Eml(id) in d
    ensures Meta(id) in Without(d, orphans - todo) <==> Meta(id) in d
    ensures orphans - (todo - {id}) == if Meta(id) in d then orphans - todo else orphans - todo + {id}
    ensures |orphans - (todo - {id})| == |orphans - todo| + if Meta(id) in d then 0 else 1
  {
    assert id in orphans <==> Meta(id) !in d;
    TodoStep(orphans, todo, id);
  }

  /** Removing doomed records creates no orphans and leaves the others. */
  lemma OrphansRemain(d: Disk, doomed: set<Id>)
    requires forall id :: id in doomed ==> Meta(id) in d
    ensures Orphans(Without(d, doomed)) == Orphans(d)
    ensures Without(Without(d, doomed), Orphans(d)) == Without(d, doomed + Orphans(d))
  {
    forall id | id in Orphans(d)
      ensures id in Orphans(Without(d, doomed))
    {
      assert Eml(id) in Without(d, doomed);
    }
    forall id | id in Orphans(Without(d, doomed))
      ensures id in Orphans(d)
    {
      assert Eml(id) in d;
    }
  }

  function WithCall(calls: Calls, id: Id, call: Call): Calls {
    calls[id := CallsOf(calls, id) + [call]]
  }

  lemma MoreCalls(d: Disk, calls: Calls, id: Id, call: Call)
    ensures Consistent(d, calls) ==> Consistent(d, WithCall(calls, id, call))
  {
    var more := WithCall(calls, id, call);
    forall i | Consistent(d, calls)
      ensures FromCalls(d, more, i)
    {
      assert FromCalls(d, calls, i);
      assert forall c :: c in CallsOf(calls, i) ==> c in CallsOf(more, i);
    }
  }

  /** A call of `store` leaves other records as they are, and its own paired if there was nothing there
      that it could be mixed with. */
  lemma StillPaired(d: Disk, e: Disk, calls: Calls, id: Id, call: Call, now: int, stage: Stage)
    requires Leaves(d, e, id, call, now, stage)
    requires forall name: Name :: !name.Temp? && name.id != id ==> SameFile(d, e, name)
    ensures forall i :: i != id && Paired(d, calls, i) ==> Paired(e, WithCall(calls, id, call), i)
    ensures Paired(d, calls, id) && (if call.raw.Some? then Meta(id) !in d else Eml(id) !in d) ==>
              Paired(e, WithCall(calls, id, call), id)
  {
    forall i | i != id && Paired(d, calls, i)
      ensures Paired(e, WithCall(calls, id, call), i)
    {
      assert SameFile(d, e, Meta(i)) && SameFile(d, e, Eml(i));
      assert forall c :: IsPairOf(d, i, c) ==> IsPairOf(e, i, c);
    }
    if Paired(d, calls, id) && (if call.raw.Some? then Meta(id) !in d else Eml(id) !in d) {
      OutcomeIsPaired(d, calls, id, call, now, e, stage);
    }
  }

  /** Removing files mixes nothing. */
  lemma FewerPaired(d: Disk, e: Disk, calls: Calls)
    requires Within(e, d)
    ensures forall i :: Paired(d, calls, i) ==> Paired(e, calls, i)
  {
    forall i | Paired(d, calls, i) && Meta(i) in e && Eml(i) in e
      ensures Paired(e, calls, i)
    {
      assert forall c :: IsPairOf(d, i, c) ==> IsPairOf(e, i, c);
    }
  }

  /** Removing files, and any change to temporary ones, keeps every record's files what they were. */
  lemma FewerConsistent(d: Disk, e: Disk, calls: Calls)
    requires forall name :: name in e && !name.Temp? ==> name in d && e[name] == d[name]
    ensures Consistent(d, calls) ==> Consistent(e, calls)
  {
    forall id | Consistent(d, calls)
      ensures FromCalls(e, calls, id)
    {
      assert FromCalls(d, calls, id);
    }
  }

  lemma ReplaceConsistent(d: Disk, calls: Calls, source: Name, target: Name)
    requires Consistent(d, calls) && source.Temp? && source in d && !target.Temp?
    requires FromCalls(Renamed(d, source, target), calls, target.id)
    ensures Consistent(Renamed(d, source, target), calls)
  {
    forall id
      ensures FromCalls(Renamed(d, source, target), calls, id)
    {
      assert FromCalls(d, calls, id);
    }
  }
}
