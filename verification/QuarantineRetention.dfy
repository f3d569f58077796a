/** How long records stay, and which are shown: the rules of the repository in days and seconds. */
module QuarantineRetention {
  import opened Bytes
  import opened Options
  import opened QuarantineStore

  /** Metadata without a kind is that of a quarantined message. */
  predicate IsQuarantine(m: Metadata) {
    m.kindField == Missing || m.kindField == Named(Quarantine)
  }

  predicate IsGreylist(m: Metadata) {
    m.kindField == Named(Greylist)
  }

  /** At most so many days, of 86400 seconds, lie between the two times. */
  predicate WithinDays(from: int, to: int, days: int) {
    to - from <= days * 86400
  }

  /** Quarantined messages count from the time their file was written, greylisted ones from the time they
      were received, if that can be read. */
  predicate Young(file: File, days: int, now: int)
    requires file.content.Json?
  {
    var m := file.content.meta;
    if IsQuarantine(m) then WithinDays(file.mtime, now, days)
    else m.received.At? && WithinDays(m.received.time, now, days)
  }

  /** What survives a cleanup: readable metadata of one of the two kinds that is young by the days set for
      its kind, with its message; and nothing at all of a kind set to no days. */
  lemma CleanupKeepsExactly(d: Disk, p: Policy, id: Id)
    ensures Meta(id) in Cleaned(d, p) <==>
              && Meta(id) in d && d[Meta(id)].content.Json?
              && var m := d[Meta(id)].content.meta;
              && (IsQuarantine(m) || IsGreylist(m))
              && var days := if IsQuarantine(m) then p.quarantineDays else p.greylistDays;
              && days != 0 && Young(d[Meta(id)], days, p.now)
    ensures Meta(id) in Cleaned(d, p) ==> Cleaned(d, p)[Meta(id)] == d[Meta(id)]
    ensures Eml(id) in Cleaned(d, p) <==> Eml(id) in d && Meta(id) in Cleaned(d, p)
    ensures Eml(id) in Cleaned(d, p) ==> Cleaned(d, p)[Eml(id)] == d[Eml(id)]
  {
  }

  /** What is kept at some time would have been kept at every earlier one. */
  lemma KeptEarlier(d: Disk, p: Policy, q: Policy, name: Name)
    requires q.now <= p.now && q.quarantineDays == p.quarantineDays && q.greylistDays == p.greylistDays
    requires name in Cleaned(d, p)
    ensures name in Cleaned(d, q)
  {
  }

  lemma EitherKind(kind: Option<Kind>)
    ensures kind == None || kind == Some(Quarantine) || kind == Some(Greylist)
  {
    if kind.Some? {
      match kind.value
      case Quarantine =>
      case Greylist =>
    }
  }

  /** A record is listed if it is readable and of the kind wanted; a quarantined one only with its
      message. */
  lemma ListedExactlyWhen(d: Disk, id: Id, wanted: Option<Kind>)
    ensures Listed(d, id, wanted).Some? <==>
              && Meta(id) in d && d[Meta(id)].content.Json?
              && var m := d[Meta(id)].content.meta;
              (IsQuarantine(m) && Eml(id) in d && (wanted == None || wanted == Some(Quarantine)))
              || (IsGreylist(m) && (wanted == None || wanted == Some(Greylist)))
    ensures Listed(d, id, wanted).Some? ==>
              var m, entry := d[Meta(id)].content.meta, Listed(d, id, wanted).value;
              && entry.id == id
              && entry.meta == m.(kindField := Named(if IsQuarantine(m) then Quarantine else Greylist))
              && (Eml(id) !in d ==> entry.size == None)
              && (Eml(id) in d && d[Eml(id)].content.Message? ==>
                    entry.size == Some(|d[Eml(id)].content.text|))
  {
    EitherKind(wanted);
    if Meta(id) in d && d[Meta(id)].content.Json? {
      EitherKind(KindOf(d[Meta(id)].content.meta));
    }
  }

  /** `delete` takes readable records of the kind it is asked for, of any kind if it is not. */
  lemma DeletableExactlyWhen(d: Disk, id: Id, kind: Option<Kind>)
    ensures Deletable(d, id, kind) <==>
              && id != BadId && Meta(id) in d && d[Meta(id)].content.Json?
              && var m := d[Meta(id)].content.meta;
              kind == None
              || (kind == Some(Quarantine) && IsQuarantine(m))
              || (kind == Some(Greylist) && IsGreylist(m))
  {
    EitherKind(kind);
    if Meta(id) in d && d[Meta(id)].content.Json? {
      EitherKind(KindOf(d[Meta(id)].content.meta));
    }
  }

  /** `store` writes the kind asked for and fills in the time only where it is missing. */
  lemma StoredRecordIs(m: Metadata, kind: Kind, now: int)
    ensures var r := RecordOf(m, kind, now);
            && r.kindField == Named(kind) && r.rest == m.rest
            && (m.received == NoStamp ==> r.received == At(now)) && (m.received != NoStamp ==> r.received == m.received)
  {
  }

  /** A quarantined message stored at `t` is there after a cleanup at `now`, unchanged, exactly if the
      quarantine keeps messages at all and so many days have not passed; else nothing of it is left. */
  method StoreAndClean(repository: Repository, id: Id, raw: bytes, metadata: Metadata, t: int, p: Policy)
    requires repository.Tidy() && repository.process.Calm() && id.Uuid? && raw != []
    modifies repository
    ensures var there := p.quarantineDays != 0 && p.now - t <= p.quarantineDays * 86400;
            && (Meta(id) in repository.files <==> there) && (Eml(id) in repository.files <==> there)
            && (there ==> repository.files[Eml(id)].content == Message(raw)
                          && repository.files[Meta(id)].content == Json(RecordOf(metadata, Quarantine, t)))
  {
    CalmWorks(repository.process, 6);
    var stored := repository.Store(id, Some(raw), metadata, Quarantine, t);
    assert stored.Stored?;
    ghost var d := repository.files;
    var removed, completed := repository.CleanupExpired(p);
    CleanupKeepsExactly(d, p, id);
  }

  /** The same for a greylisted one, but for the time counted from. */
  method StoreAndCleanGreylisted(repository: Repository, id: Id, raw: bytes, metadata: Metadata, t: int, p: Policy)
    requires repository.Tidy() && repository.process.Calm() && id.MessageKey?
    modifies repository
    ensures var received := match metadata.received
                            case At(time) => Some(time)
                            case NoStamp => Some(t)
                            case Unreadable => None;
            var there := p.greylistDays != 0 && received.Some? && p.now - received.value <= p.greylistDays * 86400;
            && (Meta(id) in repository.files <==> there) && (Eml(id) in repository.files <==> there)
            && (there ==> repository.files[Eml(id)].content == Message(raw)
                          && repository.files[Meta(id)].content == Json(RecordOf(metadata, Greylist, t)))
  {
    CalmWorks(repository.process, 6);
    var stored := repository.Store(id, Some(raw), metadata, Greylist, t);
    assert stored.Stored?;
    ghost var d := repository.files;
    var removed, completed := repository.CleanupExpired(p);
    CleanupKeepsExactly(d, p, id);
  }

  /** `get` finds it exactly for so many days; after that it is deleted. */
  method StoreAndGet(repository: Repository, id: Id, raw: bytes, metadata: Metadata, t: int, days: int, now: int)
    returns (entry: Option<Entry>)
    requires repository.Tidy() && repository.process.Calm() && id.Uuid? && raw != []
    modifies repository
    ensures entry == if now - t <= days * 86400 then Some(Entry(id, RecordOf(metadata, Quarantine, t), Some(|raw|)))
                     else None
    ensures Meta(id) in repository.files <==> now - t <= days * 86400
    ensures Eml(id) in repository.files <==> now - t <= days * 86400
  {
    CalmWorks(repository.process, 6);
    var stored := repository.Store(id, Some(raw), metadata, Quarantine, t);
    assert stored.Stored?;
    CalmWorks(repository.process, 2);
    entry := repository.Get(id, Quarantine, days, now);
  }

  /** A greylisted message counts from the time in its metadata, and from the call where there is none. */
  method StoreAndGetGreylisted(repository: Repository, id: Id, raw: bytes, metadata: Metadata, t: int, days: int,
                               now: int)
    returns (entry: Option<Entry>)
    requires repository.Tidy() && repository.process.Calm() && id.MessageKey?
    modifies repository
    ensures entry.Some? <==> match metadata.received
                             case At(received) => now - received <= days * 86400
                             case NoStamp => now - t <= days * 86400
                             case Unreadable => false
    ensures entry.Some? ==> entry.value == Entry(id, RecordOf(metadata, Greylist, t), Some(|raw|))
  {
    CalmWorks(repository.process, 6);
    var stored := repository.Store(id, Some(raw), metadata, Greylist, t);
    assert stored.Stored?;
    CalmWorks(repository.process, 2);
    entry := repository.Get(id, Greylist, days, now);
  }
}
