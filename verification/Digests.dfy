/** The quarantine digests: which records a run sends to which mailbox, and the window state it keeps
    from run to run. */
module Digests {
  import opened Options
  import opened Calendar

  type Mailbox = string   // an address in lower case

  /** A stored time stamp that can be read back, or one that cannot. */
  datatype Stamp = At(moment: Moment) | Unreadable

  /** The configuration row: missing, not a dictionary, or the state per mailbox. */
  datatype Row = Absent | Garbled | Table(stamps: map<Mailbox, Stamp>)

  /** `received` is missing when the metadata has no readable time. */
  datatype Received = NoTime | Time(moment: Moment)
  datatype Record = Record(id: nat, received: Received, recipients: set<Mailbox>)

  /** What became of one rendered digest. */
  datatype Delivery = Sent | Failed | Raises

  /** The records of the half-open window that belong in a mailbox's digest. */
  predicate Due(r: Record, mailbox: Mailbox, start: Moment, end: Moment) {
    mailbox in r.recipients && r.received.Time? && Lt(start, r.received.moment) && Le(r.received.moment, end)
  }

  function Select(records: seq<Record>, mailbox: Mailbox, start: Moment, end: Moment): seq<Record> {
    if records == [] then []
    else (if Due(records[0], mailbox, start, end) then [records[0]] else []) + Select(records[1..], mailbox, start, end)
  }

  /** The filter of `summary_messages`, which includes the start of the window. */
  function Summarized(records: seq<Record>, mailbox: Mailbox, start: Moment, end: Moment): seq<Record> {
    if records == [] then []
    else
      var r := records[0];
      (if mailbox in r.recipients && r.received.Time? && Le(start, r.received.moment) && Le(r.received.moment, end)
       then [r] else []) + Summarized(records[1..], mailbox, start, end)
  }

  /** Rendering filters the selected records a second time and loses none of them. */
  lemma {:induction false} RenderingKeepsTheSelection(records: seq<Record>, mailbox: Mailbox,
                                                      start: Moment, end: Moment)
    ensures var selected := Select(records, mailbox, start, end);
            Summarized(selected, mailbox, start, end) == selected
  {
    if records != [] {
      var rest := Select(records[1..], mailbox, start, end);
      RenderingKeepsTheSelection(records[1..], mailbox, start, end);
      if Due(records[0], mailbox, start, end) {
        assert ([records[0]] + rest)[1..] == rest;
      } else {
        assert [] + rest == rest;
      }
    }
  }

  /** By itself the rendering filter has both ends of the window in it, and takes a record as often as it
      is there. */
  lemma {:induction false} SummarizedIsExact(records: seq<Record>, mailbox: Mailbox, start: Moment, end: Moment,
                                             r: Record)
    ensures r in Summarized(records, mailbox, start, end) <==>
              && r in records && mailbox in r.recipients && r.received != NoTime
              && !Lt(r.received.moment, start) && !Lt(end, r.received.moment)
    ensures multiset(Summarized(records, mailbox, start, end))[r]
            == if r in Summarized(records, mailbox, start, end) then multiset(records)[r] else 0
  {
    if records != [] {
      SummarizedIsExact(records[1..], mailbox, start, end, r);
      assert records == [records[0]] + records[1..];
    }
  }

  lemma {:induction false} SelectIsExact(records: seq<Record>, mailbox: Mailbox, start: Moment, end: Moment)
    ensures forall r :: r in Select(records, mailbox, start, end) <==> r in records && Due(r, mailbox, start, end)
  {
    if records != [] {
      SelectIsExact(records[1..], mailbox, start, end);
      assert records == [records[0]] + records[1..];
    }
  }

  function Stamps(row: Row): map<Mailbox, Stamp> {
    if row.Table? then row.stamps else map[]
  }

  // ---- what a run does, as a function of its inputs ----

  /** A digest as it is mailed. */
  datatype Digest = Digest(mailbox: Mailbox, start: Moment, end: Moment, messages: seq<Record>)

  /** One call of `send_due_summaries`, and one enabled user's turn in it with what becomes of the
      digest, should one be due. */
  datatype Run = Run(periodicity: Periodicity, now: Moment, records: seq<Record>)
  datatype Turn = Turn(mailbox: Mailbox, delivery: Delivery)

  /** Part way through a run: the stored row, the run's own dictionary, all mail ever sent, the number
      of digests this run has sent, and whether it was cut short by an exception. */
  datatype Progress = Progress(row: Row, state: map<Mailbox, Stamp>, outbox: seq<Digest>, sent: nat, raised: bool)

  predicate Resumes(state: map<Mailbox, Stamp>, key: Mailbox) {
    key in state && state[key].At?
  }

  predicate IsDue(state: map<Mailbox, Stamp>, key: Mailbox, run: Run) {
    !(Resumes(state, key) && Lt(run.now, ShiftPeriod(state[key].moment, run.periodicity, 1)))
  }

  function DigestFor(state: map<Mailbox, Stamp>, key: Mailbox, run: Run): Digest {
    var start := if Resumes(state, key) then state[key].moment else ShiftPeriod(run.now, run.periodicity, -1);
    Digest(key, start, run.now, Select(run.records, key, start, run.now))
  }

  function AfterTurn(p: Progress, run: Run, turn: Turn): Progress {
    var advanced := p.state[turn.mailbox := At(run.now)];
    var digest := DigestFor(p.state, turn.mailbox, run);
    if !IsDue(p.state, turn.mailbox, run) then p
    else if digest.messages == [] then p.(state := advanced)
    else
      match turn.delivery
      case Raises => p.(raised := true)
      case Failed => p
      case Sent => Progress(Table(advanced), advanced, p.outbox + [digest], p.sent + 1, p.raised)
  }

  function AfterTurns(p: Progress, run: Run, turns: seq<Turn>): Progress {
    if turns == [] then p
    else
      var k := |turns| - 1;
      var q := AfterTurns(p, run, turns[..k]);
      if q.raised then q else AfterTurn(q, run, turns[k])
  }

  function Begin(row: Row, outbox: seq<Digest>): Progress {
    Progress(row, Stamps(row), outbox, 0, false)
  }

  /** What the loop has left uncommitted is stored at the end, unless a digest was sent. */
  predicate StoresRest(p: Progress) {
    !p.raised && ((p.row.Absent? && p.state != map[]) || (!p.row.Absent? && p.sent == 0 && p.row != Table(p.state)))
  }

  function End(p: Progress): Progress {
    if StoresRest(p) then p.(row := Table(p.state)) else p
  }

  function AfterRun(row: Row, outbox: seq<Digest>, run: Run, turns: seq<Turn>): Progress {
    End(AfterTurns(Begin(row, outbox), run, turns))
  }

  // ---- the mail of one run ----

  predicate GetsDigest(state: map<Mailbox, Stamp>, run: Run, turn: Turn) {
    IsDue(state, turn.mailbox, run) && DigestFor(state, turn.mailbox, run).messages != [] && turn.delivery.Sent?
  }

  predicate Raised(state: map<Mailbox, Stamp>, run: Run, turn: Turn) {
    IsDue(state, turn.mailbox, run) && DigestFor(state, turn.mailbox, run).messages != [] && turn.delivery.Raises?
  }

  /** The digests of the users who are due by the state before the run, have records in their window
      and are reached by the mail server, up to the first exception. */
  function Mailing(state: map<Mailbox, Stamp>, run: Run, turns: seq<Turn>): seq<Digest> {
    if turns == [] then []
    else
      var k := |turns| - 1;
      Mailing(state, run, turns[..k])
      + if GetsDigest(state, run, turns[k]) && !(exists t :: t in turns[..k] && Raised(state, run, t))
        then [DigestFor(state, turns[k].mailbox, run)] else []
  }

  ghost predicate OneTurnEach(turns: seq<Turn>) {
    forall i, j :: 0 <= i < j < |turns| ==> turns[i].mailbox != turns[j].mailbox
  }

  /** A user's turn leaves the state of all others alone. */
  lemma {:induction false} TurnsOfOthers(p: Progress, run: Run, turns: seq<Turn>, key: Mailbox)
    requires forall t :: t in turns ==> t.mailbox != key
    ensures var q := AfterTurns(p, run, turns);
            (key in q.state <==> key in p.state) && (key in p.state ==> q.state[key] == p.state[key])
  {
    if turns != [] {
      TurnsOfOthers(p, run, turns[..|turns| - 1], key);
    }
  }

  /** A run adds exactly that mail to the outbox, in order, and counts it. */
  lemma {:induction false} RunMailsExactly(p: Progress, run: Run, turns: seq<Turn>)
    requires OneTurnEach(turns) && !p.raised
    ensures var q := AfterTurns(p, run, turns);
            && q.outbox == p.outbox + Mailing(p.state, run, turns)
            && q.sent == p.sent + |Mailing(p.state, run, turns)|
            && (q.raised <==> exists t :: t in turns && Raised(p.state, run, t))
  {
    if turns != [] {
      var k := |turns| - 1;
      var front, last := turns[..k], turns[k];
      var q := AfterTurns(p, run, front);
      RunMailsExactly(p, run, front);
      TurnsOfOthers(p, run, front, last.mailbox);
      assert DigestFor(q.state, last.mailbox, run) == DigestFor(p.state, last.mailbox, run);
      assert IsDue(q.state, last.mailbox, run) == IsDue(p.state, last.mailbox, run);
      assert forall t :: t in turns <==> t in front || t == last;
    }
  }

  // ---- when, what and with which state after it ----

  /** A mailbox is due if it has no readable state, or that is at least a period old. */
  lemma DueExactlyWhen(state: map<Mailbox, Stamp>, key: Mailbox, run: Run)
    ensures IsDue(state, key, run) <==>
              key !in state || state[key] == Unreadable
              || Le(ShiftPeriod(state[key].moment, run.periodicity, 1), run.now)
  {
  }

  /** Its digest has exactly the records addressed to it that came in after the start of the window and
      no later than now, in their order; the window starts at the state, or one period back. */
  lemma {:induction false} DigestExactly(state: map<Mailbox, Stamp>, key: Mailbox, run: Run, r: Record)
    ensures var d := DigestFor(state, key, run);
            && d.mailbox == key && d.end == run.now
            && d.start == (if key in state && state[key] != Unreadable then state[key].moment
                           else ShiftPeriod(run.now, run.periodicity, -1))
            && (r in d.messages <==>
                  && r in run.records && key in r.recipients && r.received != NoTime
                  && Lt(d.start, r.received.moment) && Le(r.received.moment, run.now))
            && multiset(d.messages)[r] == if r in d.messages then multiset(run.records)[r] else 0
  {
    var d := DigestFor(state, key, run);
    SelectIsExact(run.records, key, d.start, run.now);
    SelectCount(run.records, key, d.start, run.now, r);
  }

  lemma {:induction false} SelectCount(records: seq<Record>, key: Mailbox, start: Moment, end: Moment, r: Record)
    ensures multiset(Select(records, key, start, end))[r]
         == if Due(r, key, start, end) then multiset(records)[r] else 0
  {
    if records != [] {
      SelectCount(records[1..], key, start, end, r);
      assert records == [records[0]] + records[1..];
    }
  }

  /** A turn brings the user's state up to now if there is nothing to mail or the mail goes out. */
  predicate Advances(state: map<Mailbox, Stamp>, run: Run, turn: Turn) {
    && IsDue(state, turn.mailbox, run)
    && (DigestFor(state, turn.mailbox, run).messages == [] || turn.delivery.Sent?)
  }

  /** The dictionary after the loop: up to now for these, as before for all others, be it that they are
      not due or that the mail failed. */
  lemma {:induction false} StateAfterTurns(p: Progress, run: Run, turns: seq<Turn>, key: Mailbox)
    requires OneTurnEach(turns) && !AfterTurns(p, run, turns).raised
    ensures var q := AfterTurns(p, run, turns);
            if exists t :: t in turns && t.mailbox == key && Advances(p.state, run, t)
            then key in q.state && q.state[key] == At(run.now)
            else (key in q.state <==> key in p.state) && (key in p.state ==> q.state[key] == p.state[key])
  {
    if turns != [] {
      var k := |turns| - 1;
      var front, last := turns[..k], turns[k];
      assert forall t :: t in turns <==> t in front || t == last;
      if last.mailbox == key {
        TurnsOfOthers(p, run, front, key);
      } else {
        StateAfterTurns(p, run, front, key);
      }
    }
  }

  lemma RowAfterTurn(p: Progress, run: Run, turn: Turn)
    ensures var q := AfterTurn(p, run, turn);
            (q.sent == p.sent && q.row == p.row) || (q.sent == p.sent + 1 && q.row == Table(q.state))
  {
  }

  /** After `k` turns a digest has just gone out, and it is the last one. */
  ghost predicate LastMailed(p: Progress, run: Run, turns: seq<Turn>, k: nat) {
    && 0 < k <= |turns| && AfterTurns(p, run, turns[..k]).sent == AfterTurns(p, run, turns).sent
    && AfterTurns(p, run, turns[..k - 1]).sent < AfterTurns(p, run, turns[..k]).sent
  }

  /** The row in the loop: as before until a digest goes out, then the dictionary at the last that did. */
  lemma {:induction false} RowAfterTurns(p: Progress, run: Run, turns: seq<Turn>) returns (k: nat)
    ensures var q := AfterTurns(p, run, turns);
            && q.sent >= p.sent && (q.sent == p.sent ==> q.row == p.row)
            && (q.sent > p.sent ==>
                  LastMailed(p, run, turns, k) && q.row == Table(AfterTurns(p, run, turns[..k]).state))
  {
    k := 0;
    if turns != [] {
      var n := |turns| - 1;
      var front := turns[..n];
      k := RowAfterTurns(p, run, front);
      RowAfterTurn(AfterTurns(p, run, front), run, turns[n]);
      if AfterTurns(p, run, turns).sent > AfterTurns(p, run, front).sent {
        k := n + 1;
        assert turns[..k] == turns;
      } else if AfterTurns(p, run, front).sent > p.sent {
        assert front[..k] == turns[..k] && front[..k - 1] == turns[..k - 1];
      }
    }
  }

  /** The row in the end: a run that mails nothing and is not cut short stores its dictionary, unless
      there is nothing to store; any other leaves the row of the loop. */
  lemma RowAfterRun(row: Row, outbox: seq<Digest>, run: Run, turns: seq<Turn>)
    ensures var q, e := AfterTurns(Begin(row, outbox), run, turns), AfterRun(row, outbox, run, turns);
            && e.outbox == q.outbox && e.sent == q.sent
            && e.row == if q.sent > 0 || q.raised then q.row
                        else if row == Absent && q.state == map[] then Absent else Table(q.state)
  {
    var k := RowAfterTurns(Begin(row, outbox), run, turns);
  }

  // ---- the windows behind the stored state ----

  /** One window a run has examined for a mailbox: the records it saw, the ones it sent, and the
      position of their digest in the outbox. */
  datatype Window = Window(start: Moment, end: Moment, periodicity: Periodicity, resumed: bool, seen: seq<Record>,
                           sent: seq<Record>, post: Option<nat>)

  type Trail = map<Mailbox, seq<Window>>

  function Of(trail: Trail, mailbox: Mailbox): seq<Window> {
    if mailbox in trail then trail[mailbox] else []
  }

  /** The windows behind the stored row, those behind the run's dictionary, and for each digest the
      number of its window. */
  datatype History = History(stored: Trail, working: Trail, places: seq<nat>)

  /** The window a run examines for a mailbox that is due. */
  function WindowFor(p: Progress, key: Mailbox, run: Run): Window {
    var d := DigestFor(p.state, key, run);
    Window(d.start, run.now, run.periodicity, Resumes(p.state, key), run.records, d.messages,
           if d.messages == [] then None else Some(|p.outbox|))
  }

  function Continued(windows: Trail, key: Mailbox, w: Window): Trail {
    windows[key := Of(windows, key) + [w]]
  }

  function TracedTurn(h: History, p: Progress, run: Run, turn: Turn): History {
    var w := WindowFor(p, turn.mailbox, run);
    var longer := Continued(h.working, turn.mailbox, w);
    if !IsDue(p.state, turn.mailbox, run) then h
    else if w.sent == [] then h.(working := longer)
    else if turn.delivery.Sent? then History(longer, longer, h.places + [|Of(h.working, turn.mailbox)|])
    else h
  }

  function TracedTurns(h: History, p: Progress, run: Run, turns: seq<Turn>): History {
    if turns == [] then h
    else
      var k := |turns| - 1;
      var q, g := AfterTurns(p, run, turns[..k]), TracedTurns(h, p, run, turns[..k]);
      if q.raised then g else TracedTurn(g, q, run, turns[k])
  }

  function TracedEnd(h: History, p: Progress): History {
    if StoresRest(p) then h.(stored := h.working) else h
  }

  /** The history a run leaves, given the one before it. */
  function TracedRun(trail: Trail, places: seq<nat>, row: Row, outbox: seq<Digest>, run: Run, turns: seq<Turn>)
    : History
  {
    var p := Begin(row, outbox);
    TracedEnd(TracedTurns(History(trail, trail, places), p, run, turns), AfterTurns(p, run, turns))
  }

  /** A window is as the code chooses it: it resumes at the stored state, at least a period later, or
      starts one period back; and it sends exactly the records it covers. */
  ghost predicate WellChosen(w: Window, mailbox: Mailbox) {
    && w.start.Valid() && w.end.Valid() && Lt(w.start, w.end)
    && (if w.resumed then Le(ShiftPeriod(w.start, w.periodicity, 1), w.end)
        else w.start == ShiftPeriod(w.end, w.periodicity, -1))
    && w.sent == Select(w.seen, mailbox, w.start, w.end)
  }

  ghost predicate Abuts(windows: seq<Window>, i: nat)
    requires 0 < i < |windows|
  {
    windows[i].resumed && windows[i].start == windows[i - 1].end
  }

  /** The windows of a mailbox follow each other without gap or overlap and end at its state. */
  ghost predicate Chained(windows: seq<Window>, mailbox: Mailbox, stamps: map<Mailbox, Stamp>, clock: Moment) {
    && (forall i :: 0 <= i < |windows| ==> WellChosen(windows[i], mailbox) && Le(windows[i].end, clock))
    && (forall i :: 0 < i < |windows| ==> Abuts(windows, i))
    && (windows != [] ==> mailbox in stamps && stamps[mailbox] == At(windows[|windows| - 1].end))
  }

  ghost predicate ChainedAt(trail: Trail, mailbox: Mailbox, stamps: map<Mailbox, Stamp>, clock: Moment) {
    Chained(Of(trail, mailbox), mailbox, stamps, clock)
  }

  ghost predicate AllChained(trail: Trail, stamps: map<Mailbox, Stamp>, clock: Moment) {
    forall m :: ChainedAt(trail, m, stamps, clock)
  }

  ghost predicate Readable(stamps: map<Mailbox, Stamp>) {
    forall m :: m in stamps && stamps[m].At? ==> stamps[m].moment.Valid()
  }

  /** A window has been mailed if there was something in it, and the outbox has it in its place. */
  ghost predicate PostedAt(outbox: seq<Digest>, places: seq<nat>, trail: Trail, mailbox: Mailbox, k: nat)
    requires |places| == |outbox|
  {
    var windows := Of(trail, mailbox);
    k < |windows| ==>
      var w := windows[k];
      && (w.post.Some? <==> w.sent != [])
      && (w.post.Some? ==>
            w.post.value < |outbox| && places[w.post.value] == k
            && outbox[w.post.value] == Digest(mailbox, w.start, w.end, w.sent))
  }

  /** Every digest belongs to one window. */
  ghost predicate PlacedAt(outbox: seq<Digest>, places: seq<nat>, trail: Trail, i: nat)
    requires |places| == |outbox| && i < |outbox|
  {
    var windows := Of(trail, outbox[i].mailbox);
    places[i] < |windows| && windows[places[i]].post == Some(i)
  }

  ghost predicate Posted(outbox: seq<Digest>, places: seq<nat>, trail: Trail) {
    && |places| == |outbox|
    && (forall m, k :: PostedAt(outbox, places, trail, m, k))
    && (forall i: nat :: i < |outbox| ==> PlacedAt(outbox, places, trail, i))
    && (forall i, j :: 0 <= i < j < |outbox| && outbox[i].mailbox == outbox[j].mailbox ==> places[i] < places[j])
  }

  ghost predicate UsesAt(trail: Trail, mailbox: Mailbox, periods: set<Periodicity>) {
    forall w :: w in Of(trail, mailbox) ==> w.periodicity in periods
  }

  /** A dictionary and the windows behind it. */
  ghost predicate Sound(state: map<Mailbox, Stamp>, trail: Trail, outbox: seq<Digest>, places: seq<nat>, now: Moment,
                        periods: set<Periodicity>) {
    && now.Valid() && Readable(state) && AllChained(trail, state, now) && Posted(outbox, places, trail)
    && forall m :: UsesAt(trail, m, periods)
  }

  /** The stored row and the run's dictionary both have sound windows behind them. */
  ghost predicate Steady(p: Progress, h: History, now: Moment, periods: set<Periodicity>) {
    && Sound(Stamps(p.row), h.stored, p.outbox, h.places, now, periods)
    && Sound(p.state, h.working, p.outbox, h.places, now, periods)
  }

  lemma ExtendChain(windows: seq<Window>, w: Window, mailbox: Mailbox, stamps: map<Mailbox, Stamp>, clock: Moment)
    requires Chained(windows, mailbox, stamps, clock)
    requires WellChosen(w, mailbox) && w.end == clock
    requires w.resumed <==> mailbox in stamps && stamps[mailbox].At?
    requires w.resumed ==> w.start == stamps[mailbox].moment
    ensures Chained(windows + [w], mailbox, stamps[mailbox := At(clock)], clock)
  {
    var longer := windows + [w];
    forall i | 0 < i < |longer|
      ensures Abuts(longer, i)
    {
      assert i < |windows| ==> Abuts(windows, i);
    }
  }

  lemma ChainedElsewhere(windows: Trail, w: Window, key: Mailbox, state: map<Mailbox, Stamp>, now: Moment, m: Mailbox)
    requires m != key && ChainedAt(windows, m, state, now)
    ensures ChainedAt(Continued(windows, key, w), m, state[key := At(now)], now)
  {
    assert Of(Continued(windows, key, w), m) == Of(windows, m);
  }

  lemma ExtendTrail(windows: Trail, w: Window, key: Mailbox, state: map<Mailbox, Stamp>, now: Moment)
    requires AllChained(windows, state, now) && WellChosen(w, key) && w.end == now
    requires w.resumed <==> key in state && state[key].At?
    requires w.resumed ==> w.start == state[key].moment
    ensures AllChained(Continued(windows, key, w), state[key := At(now)], now)
  {
    assert ChainedAt(windows, key, state, now);
    ExtendChain(Of(windows, key), w, key, state, now);
    var longer, state' := Continued(windows, key, w), state[key := At(now)];
    forall m
      ensures ChainedAt(longer, m, state', now)
    {
      assert ChainedAt(windows, m, state, now);
      if m != key { ChainedElsewhere(windows, w, key, state, now, m); }
    }
  }

  lemma WindowIsWellChosen(p: Progress, key: Mailbox, run: Run)
    requires run.now.Valid() && Readable(p.state) && IsDue(p.state, key, run)
    ensures WellChosen(WindowFor(p, key, run), key)
  {
    if Resumes(p.state, key) {
      ShiftMovesOn(p.state[key].moment, run.periodicity, 1);
    } else {
      ShiftIsValid(run.now, run.periodicity, -1);
      ShiftMovesOn(run.now, run.periodicity, -1);
    }
  }

  /** An empty window needs no digest. */
  lemma PostNothing(windows: Trail, outbox: seq<Digest>, places: seq<nat>, key: Mailbox, w: Window)
    requires Posted(outbox, places, windows) && w.sent == [] && w.post.None?
    ensures Posted(outbox, places, Continued(windows, key, w))
  {
    var longer := Continued(windows, key, w);
    forall m, k
      ensures PostedAt(outbox, places, longer, m, k)
    {
      assert PostedAt(outbox, places, windows, m, k);
    }
    forall i: nat | i < |outbox|
      ensures PlacedAt(outbox, places, longer, i)
    {
      assert PlacedAt(outbox, places, windows, i);
    }
  }

  lemma PostNext(windows: Trail, outbox: seq<Digest>, places: seq<nat>, key: Mailbox, w: Window)
    requires Posted(outbox, places, windows) && w.sent != [] && w.post == Some(|outbox|)
    ensures Posted(outbox + [Digest(key, w.start, w.end, w.sent)], places + [|Of(windows, key)|],
                   Continued(windows, key, w))
  {
    var longer := Continued(windows, key, w);
    var outbox', places' := outbox + [Digest(key, w.start, w.end, w.sent)], places + [|Of(windows, key)|];
    forall m, k
      ensures PostedAt(outbox', places', longer, m, k)
    {
      assert PostedAt(outbox, places, windows, m, k);
    }
    forall i: nat | i < |outbox'|
      ensures PlacedAt(outbox', places', longer, i)
    {
      assert i < |outbox| ==> PlacedAt(outbox, places, windows, i);
    }
    forall i, j | 0 <= i < j < |outbox'| && outbox'[i].mailbox == outbox'[j].mailbox
      ensures places'[i] < places'[j]
    {
      assert PlacedAt(outbox, places, windows, i);
    }
  }

  lemma UsesOneMore(windows: Trail, key: Mailbox, w: Window, periods: set<Periodicity>)
    requires w.periodicity in periods && forall m :: UsesAt(windows, m, periods)
    ensures forall m :: UsesAt(Continued(windows, key, w), m, periods)
  {
    forall m
      ensures UsesAt(Continued(windows, key, w), m, periods)
    {
      assert UsesAt(windows, m, periods);
    }
  }

  /** A user's turn keeps stored and working state sound, whether or not there was something to send. */
  lemma TurnIsSteady(h: History, p: Progress, run: Run, turn: Turn, periods: set<Periodicity>)
    requires Steady(p, h, run.now, periods) && run.periodicity in periods
    ensures Steady(AfterTurn(p, run, turn), TracedTurn(h, p, run, turn), run.now, periods)
  {
    if IsDue(p.state, turn.mailbox, run) {
      var w := WindowFor(p, turn.mailbox, run);
      WindowIsWellChosen(p, turn.mailbox, run);
      ExtendTrail(h.working, w, turn.mailbox, p.state, run.now);
      UsesOneMore(h.working, turn.mailbox, w, periods);
      if w.sent == [] {
        PostNothing(h.working, p.outbox, h.places, turn.mailbox, w);
      } else {
        PostNext(h.working, p.outbox, h.places, turn.mailbox, w);
      }
    }
  }

  lemma SoundLater(state: map<Mailbox, Stamp>, trail: Trail, outbox: seq<Digest>, places: seq<nat>, clock: Moment,
                   now: Moment, periods: set<Periodicity>, more: set<Periodicity>)
    requires Sound(state, trail, outbox, places, clock, periods) && now.Valid() && Le(clock, now) && periods <= more
    ensures Sound(state, trail, outbox, places, now, more)
  {
    forall m
      ensures ChainedAt(trail, m, state, now) && UsesAt(trail, m, more)
    {
      assert ChainedAt(trail, m, state, clock) && UsesAt(trail, m, periods);
    }
  }

  lemma TurnsStep(h: History, p: Progress, run: Run, turns: seq<Turn>, i: nat)
    requires i < |turns| && !AfterTurns(p, run, turns[..i]).raised
    ensures AfterTurns(p, run, turns[..i + 1]) == AfterTurn(AfterTurns(p, run, turns[..i]), run, turns[i])
    ensures TracedTurns(h, p, run, turns[..i + 1])
         == TracedTurn(TracedTurns(h, p, run, turns[..i]), AfterTurns(p, run, turns[..i]), run, turns[i])
  {
    assert turns[..i + 1][..i] == turns[..i];
  }

  lemma RaisedStep(h: History, p: Progress, run: Run, turns: seq<Turn>)
    requires turns != [] && AfterTurns(p, run, turns[..|turns| - 1]).raised
    ensures AfterTurns(p, run, turns) == AfterTurns(p, run, turns[..|turns| - 1])
    ensures TracedTurns(h, p, run, turns) == TracedTurns(h, p, run, turns[..|turns| - 1])
  {
  }

  lemma {:induction false} RaisedStays(h: History, p: Progress, run: Run, turns: seq<Turn>, n: nat)
    requires n <= |turns| && AfterTurns(p, run, turns[..n]).raised
    ensures AfterTurns(p, run, turns) == AfterTurns(p, run, turns[..n])
    ensures TracedTurns(h, p, run, turns) == TracedTurns(h, p, run, turns[..n])
    decreases |turns|
  {
    if n == |turns| {
      assert turns[..n] == turns;
    } else {
      var k := |turns| - 1;
      assert turns[..k][..n] == turns[..n];
      RaisedStays(h, p, run, turns[..k], n);
      RaisedStep(h, p, run, turns);
    }
  }

  lemma {:induction false} OutboxGrows(p: Progress, run: Run, turns: seq<Turn>)
    ensures var q := AfterTurns(p, run, turns);
            p.outbox <= q.outbox && |q.outbox| - |p.outbox| == q.sent - p.sent
  {
    if turns != [] {
      OutboxGrows(p, run, turns[..|turns| - 1]);
    }
  }

  class Job {
    var row: Row
    /** All digests the mail server has accepted. */
    var outbox: seq<Digest>
    // history: the windows behind the stored state, the place of each digest among them, the time of
    // the last run and the periodicities there have been
    ghost var trail: Trail
    ghost var places: seq<nat>
    ghost var clock: Moment
    ghost var periods: set<Periodicity>

    ghost predicate Valid()
      reads this
    {
      Sound(Stamps(row), trail, outbox, places, clock, periods)
    }

    constructor (row: Row, clock: Moment)
      requires clock.Valid() && Readable(Stamps(row))
      ensures Valid() && this.row == row && this.clock == clock && outbox == [] && periods == {}
    {
      this.row := row;
      this.clock := clock;
      outbox, trail, places, periods := [], map[], [], {};
    }

    /** `send_due_summaries`, with a turn for each enabled user. */
    method SendDueSummaries(enabled: bool, run: Run, turns: seq<Turn>) returns (sent: nat)
      requires Valid() && run.now.Valid() && Le(clock, run.now)
      modifies this
      ensures Valid()
      ensures old(outbox) <= outbox && |outbox| == |old(outbox)| + sent
      ensures enabled ==>
                && clock == run.now && periods == old(periods) + {run.periodicity}
                && var p := AfterRun(old(row), old(outbox), run, turns);
                && row == p.row && outbox == p.outbox && sent == p.sent
                && var h := TracedRun(old(trail), old(places), old(row), old(outbox), run, turns);
                && trail == h.stored && places == h.places
      ensures enabled && OneTurnEach(turns) ==> outbox == old(outbox) + Mailing(Stamps(old(row)), run, turns)
      ensures !enabled ==>
                && clock == old(clock) && periods == old(periods)
                && row == old(row) && outbox == old(outbox) && trail == old(trail) && places == old(places)
    {
      sent := 0;
      if !enabled {
        return;
      }
      StartRun(run);
      ghost var before := Begin(row, outbox);
      var p, h := TakeTurns(run, turns);
      OutboxGrows(before, run, turns);
      if OneTurnEach(turns) {
        RunMailsExactly(before, run, turns);
      }
      if !p.raised {
        StoreRest(p, h);
      }
      sent := p.sent;
    }

    /** The loop over the users; an exception ends it. */
    method TakeTurns(run: Run, turns: seq<Turn>) returns (p: Progress, ghost h: History)
      requires Valid() && clock == run.now && run.periodicity in periods
      modifies `row, `outbox, `trail, `places
      ensures p == AfterTurns(old(Begin(row, outbox)), run, turns)
      ensures h == TracedTurns(old(History(trail, trail, places)), old(Begin(row, outbox)), run, turns)
      ensures row == p.row && outbox == p.outbox && trail == h.stored && places == h.places
      ensures Steady(p, h, run.now, periods)
    {
      p, h := Begin(row, outbox), History(trail, trail, places);
      ghost var p0, h0 := p, h;
      for i := 0 to |turns|
        invariant p == AfterTurns(p0, run, turns[..i]) && !p.raised
        invariant h == TracedTurns(h0, p0, run, turns[..i])
        invariant Steady(p, h, run.now, periods)
        invariant row == p.row && outbox == p.outbox && trail == h.stored && places == h.places
      {
        TurnsStep(h0, p0, run, turns, i);
        TurnIsSteady(h, p, run, turns[i], periods);
        p, h := Summarize(run, turns[i], p, h);
        if p.raised {
          RaisedStays(h0, p0, run, turns, i + 1);
          return;
        }
      }
      assert turns[..|turns|] == turns;
    }

    ghost method StartRun(run: Run)
      requires Valid() && run.now.Valid() && Le(clock, run.now)
      modifies `clock, `periods
      ensures Valid() && clock == run.now && periods == old(periods) + {run.periodicity}
    {
      SoundLater(Stamps(row), trail, outbox, places, clock, run.now, periods, periods + {run.periodicity});
      clock, periods := run.now, periods + {run.periodicity};
    }

    /** The loop body for one user. Rendering filters the selected records once more. */
    method Summarize(run: Run, turn: Turn, p: Progress, ghost h: History) returns (q: Progress, ghost g: History)
      requires row == p.row && outbox == p.outbox && trail == h.stored && places == h.places && !p.raised
      modifies `row, `outbox, `trail, `places
      ensures q == AfterTurn(p, run, turn) && g == TracedTurn(h, p, run, turn)
      ensures row == q.row && outbox == q.outbox && trail == g.stored && places == g.places
    {
      q, g := p, TracedTurn(h, p, run, turn);
      var key := turn.mailbox;
      var resumed := key in p.state && p.state[key].At?;
      if resumed && Lt(run.now, ShiftPeriod(p.state[key].moment, run.periodicity, 1)) {
        return;
      }
      var start := if resumed then p.state[key].moment else ShiftPeriod(run.now, run.periodicity, -1);
      var messages := Select(run.records, key, start, run.now);
      if messages == [] {
        q := q.(state := q.state[key := At(run.now)]);
        return;
      }
      RenderingKeepsTheSelection(run.records, key, start, run.now);
      var digest := Digest(key, start, run.now, Summarized(messages, key, start, run.now));
      assert digest == DigestFor(p.state, key, run) && IsDue(p.state, key, run);
      if turn.delivery.Raises? {
        q := q.(raised := true);
      } else if turn.delivery.Sent? {
        outbox := outbox + [digest];
        q := q.(state := q.state[key := At(run.now)], outbox := outbox, sent := q.sent + 1);
        row, trail, places := Table(q.state), g.stored, g.places;
        q := q.(row := row);
      }
    }

    /** The end of the run: commit a state that no digest has committed yet. */
    method StoreRest(p: Progress, ghost h: History)
      requires row == p.row && outbox == p.outbox && trail == h.stored && places == h.places && !p.raised
      requires Steady(p, h, clock, periods)
      modifies `row, `trail
      ensures Valid() && row == End(p).row && trail == TracedEnd(h, p).stored
    {
      if (row.Absent? && p.state != map[]) || (!row.Absent? && p.sent == 0 && row != Table(p.state)) {
        row, trail := Table(p.state), h.working;
      }
    }

    /** No record is in two of the digests sent to a mailbox, in one run or in several. */
    lemma NoRecordTwice(i: nat, j: nat, r: Record)
      requires Valid() && i < j < |outbox| && outbox[i].mailbox == outbox[j].mailbox
      requires r in outbox[i].messages
      ensures r !in outbox[j].messages
    {
      var m := outbox[i].mailbox;
      var windows := Of(trail, m);
      DigestIsWindow(i);
      DigestIsWindow(j);
      WindowsInOrder(windows, m, Stamps(row), clock, places[i], places[j]);
      var v, w := windows[places[i]], windows[places[j]];
      SelectIsExact(v.seen, m, v.start, v.end);
      SelectIsExact(w.seen, m, w.start, w.end);
    }

    /** As long as the periodicity has not been changed, digests to a mailbox are at least a period
        apart. */
    lemma AtLeastAPeriodApart(i: nat, j: nat, periodicity: Periodicity)
      requires Valid() && i < j < |outbox| && outbox[i].mailbox == outbox[j].mailbox
      requires periods == {periodicity}
      ensures Le(ShiftPeriod(outbox[i].end, periodicity, 1), outbox[j].end)
    {
      var m := outbox[i].mailbox;
      DigestIsWindow(i);
      DigestIsWindow(j);
      PeriodInUse(m, places[i] + 1);
      PeriodsApart(Of(trail, m), m, Stamps(row), clock, places[i], places[j], periodicity);
    }

    lemma PeriodInUse(mailbox: Mailbox, k: nat)
      requires Valid() && k < |Of(trail, mailbox)|
      ensures Of(trail, mailbox)[k].periodicity in periods
    {
      assert UsesAt(trail, mailbox, periods);
    }

    lemma DigestIsWindow(i: nat)
      requires Valid() && i < |outbox|
      ensures var m := outbox[i].mailbox;
              && Chained(Of(trail, m), m, Stamps(row), clock) && places[i] < |Of(trail, m)|
              && var w := Of(trail, m)[places[i]];
              && outbox[i] == Digest(m, w.start, w.end, w.sent) && WellChosen(w, m)
      ensures forall j :: i < j < |outbox| && outbox[j].mailbox == outbox[i].mailbox ==> places[i] < places[j]
    {
      var m := outbox[i].mailbox;
      assert PlacedAt(outbox, places, trail, i);
      assert PostedAt(outbox, places, trail, m, places[i]);
      assert ChainedAt(trail, m, Stamps(row), clock);
    }

    /** Nothing between two windows is passed over: every moment between them lies in one of the
        examined windows, and a record of that moment that the run saw has been mailed. */
    lemma NothingPassedOver(mailbox: Mailbox, i: nat, j: nat, r: Record) returns (k: nat)
      requires Valid() && i < j < |Of(trail, mailbox)|
      requires mailbox in r.recipients && r.received.Time?
      requires Lt(Of(trail, mailbox)[i].end, r.received.moment) && Le(r.received.moment, Of(trail, mailbox)[j].end)
      ensures i < k <= j && Due(r, mailbox, Of(trail, mailbox)[k].start, Of(trail, mailbox)[k].end)
      ensures var w := Of(trail, mailbox)[k];
              r in w.seen ==> w.post.Some? && w.post.value < |outbox|
                              && outbox[w.post.value].mailbox == mailbox && r in outbox[w.post.value].messages
    {
      var windows := Of(trail, mailbox);
      assert ChainedAt(trail, mailbox, Stamps(row), clock);
      k := WindowOf(windows, mailbox, Stamps(row), clock, i, j, r.received.moment);
      SelectIsExact(windows[k].seen, mailbox, windows[k].start, windows[k].end);
      assert PostedAt(outbox, places, trail, mailbox, k);
    }
  }

  lemma LeTransitive(a: Moment, b: Moment, c: Moment)
    requires Le(a, b) && Le(b, c)
    ensures Le(a, c)
  {
  }

  lemma PeriodsApart(windows: seq<Window>, mailbox: Mailbox, stamps: map<Mailbox, Stamp>, clock: Moment, i: nat, j: nat,
                     periodicity: Periodicity)
    requires Chained(windows, mailbox, stamps, clock) && i < j < |windows|
    requires windows[i + 1].periodicity == periodicity
    ensures Le(ShiftPeriod(windows[i].end, periodicity, 1), windows[j].end)
  {
    var w := windows[i + 1];
    var due := ShiftPeriod(windows[i].end, periodicity, 1);
    assert Abuts(windows, i + 1) && WellChosen(w, mailbox) && Le(due, w.end);
    if i + 1 < j {
      WindowsInOrder(windows, mailbox, stamps, clock, i + 1, j);
      assert WellChosen(windows[j], mailbox);
      LeTransitive(due, w.end, windows[j].start);
      LeTransitive(due, windows[j].start, windows[j].end);
    }
  }

  lemma {:induction false} WindowOf(windows: seq<Window>, mailbox: Mailbox, stamps: map<Mailbox, Stamp>, clock: Moment,
                                    i: nat, j: nat, t: Moment) returns (k: nat)
    requires Chained(windows, mailbox, stamps, clock) && i < j < |windows|
    requires Lt(windows[i].end, t) && Le(t, windows[j].end)
    ensures i < k <= j && Lt(windows[k].start, t) && Le(t, windows[k].end)
    decreases j - i
  {
    assert Abuts(windows, i + 1);
    if Le(t, windows[i + 1].end) {
      k := i + 1;
    } else {
      k := WindowOf(windows, mailbox, stamps, clock, i + 1, j, t);
    }
  }

  lemma {:induction false} WindowsInOrder(windows: seq<Window>, mailbox: Mailbox, stamps: map<Mailbox, Stamp>,
                                          clock: Moment, i: nat, j: nat)
    requires Chained(windows, mailbox, stamps, clock) && i < j < |windows|
    ensures Le(windows[i].end, windows[j].start)
    decreases j
  {
    assert Abuts(windows, j);
    if i < j - 1 {
      WindowsInOrder(windows, mailbox, stamps, clock, i, j - 1);
      assert WellChosen(windows[j - 1], mailbox);
      LeTransitive(windows[i].end, windows[j - 1].start, windows[j].start);
    }
  }
}
