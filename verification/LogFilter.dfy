/** The reader side of the log filter: pipes in, events onto the pump, with the output thread
    running freely in between. A pipe is named by the descriptor it is forwarded to. */
module LogFilter {
  import opened Bytes
  import opened LogLines
  import opened LogPump
  import opened LogDelivery

  /** The events the filter patterns leave standing; an oversized line is never matched. */
  function Kept(events: seq<Event>, matches: bytes -> bool): seq<Event> {
    if events == [] then []
    else
      var e := events[|events| - 1];
      Kept(events[..|events| - 1], matches) + if e.Line? && matches(e.text) then [] else [e]
  }

  lemma KeptSnoc(events: seq<Event>, e: Event, matches: bytes -> bool)
    ensures Kept(events + [e], matches) == Kept(events, matches) + if e.Line? && matches(e.text) then [] else [e]
  {
    assert (events + [e])[..|events|] == events;
  }

  predicate Matched(e: Event, matches: bytes -> bool) {
    e.Line? && matches(e.text)
  }

  /** A filter: the lines that match are gone, all else is there as often as before, and in order. */
  lemma KeptIsFilter(events: seq<Event>, matches: bytes -> bool)
    ensures Subsequence(Kept(events, matches), events)
    ensures forall e :: multiset(Kept(events, matches))[e] == if Matched(e, matches) then 0 else multiset(events)[e]
  {
    KeptInOrder(events, matches);
    forall e
      ensures multiset(Kept(events, matches))[e] == if Matched(e, matches) then 0 else multiset(events)[e]
    {
      KeptCount(events, matches, e);
    }
  }

  lemma {:induction false} KeptInOrder(events: seq<Event>, matches: bytes -> bool)
    ensures Subsequence(Kept(events, matches), events)
  {
    if events != [] {
      var front, last := events[..|events| - 1], events[|events| - 1];
      KeptInOrder(front, matches);
      SubsequenceWiden(Kept(front, matches), front, last);
      assert events == front + [last];
      assert Kept(front, matches) + [] == Kept(front, matches);
    }
  }

  lemma {:induction false} KeptCount(events: seq<Event>, matches: bytes -> bool, e: Event)
    ensures multiset(Kept(events, matches))[e] == if Matched(e, matches) then 0 else multiset(events)[e]
  {
    if events != [] {
      var front, last := events[..|events| - 1], events[|events| - 1];
      KeptCount(front, matches, e);
      assert events == front + [last];
    }
  }

  /** One pipe's share of the state: what was emitted is a function of the bytes seen alone. */
  ghost predicate CaughtUp(seen: bytes, events: seq<Event>, buffer: bytes, discarding: bool) {
    && events == EmittedSoFar(seen)
    && (discarding <==> |Tail(seen)| > MAX_LINE_SIZE)
    && buffer == if discarding then [] else Tail(seen)
  }

  lemma CaughtUpOpen(seen: bytes, events: seq<Event>, buffer: bytes, discarding: bool, chunk: bytes)
    requires CaughtUp(seen, events, buffer, discarding) && NEWLINE !in chunk
    ensures if discarding then CaughtUp(seen + chunk, events, [], true)
            else if |buffer| + |chunk| > MAX_LINE_SIZE then CaughtUp(seen + chunk, events + [Event.Drop], [], true)
            else CaughtUp(seen + chunk, events, buffer + chunk, false)
  {
    ExtendOpen(seen, chunk);
    assert Settled(seen) + [] == Settled(seen);
  }

  lemma CaughtUpSettled(seen: bytes, events: seq<Event>, buffer: bytes, discarding: bool, line: bytes)
    requires CaughtUp(seen, events, buffer, discarding) && Terminated(line)
    ensures if discarding then CaughtUp(seen + line, events, [], false)
            else CaughtUp(seen + line, events + [Classify(buffer + line)], [], false)
  {
    ExtendSettled(seen, line);
    assert Settled(seen) + [] == Settled(seen);
    assert Settled(seen + line) + [] == Settled(seen + line);
  }

  lemma CaughtUpEnd(seen: bytes, events: seq<Event>, buffer: bytes, discarding: bool)
    requires CaughtUp(seen, events, buffer, discarding)
    ensures Events(seen) == if buffer == [] then events else events + [Classify(buffer)]
  {
    EventsOfTail(seen);
    assert Settled(seen) + [] == Settled(seen);
  }

  lemma RunSnoc(actions: seq<Action>, a: Action)
    ensures Run(INIT, actions + [a]) == Next(Run(INIT, actions), a)
  {
    assert (actions + [a])[..|actions|] == actions;
  }

  datatype Read = Read(pipe: Fd, chunk: bytes)

  /** All bytes read from one pipe, in order. */
  function Stream(input: seq<Read>, pipe: Fd): bytes {
    if input == [] then []
    else
      var r := input[|input| - 1];
      Stream(input[..|input| - 1], pipe) + if r.pipe == pipe then r.chunk else []
  }

  /** The pipe of read `i` has not ended before. */
  ghost predicate Live(input: seq<Read>, i: nat)
    requires i < |input|
  {
    !Ended(input[..i], input[i].pipe)
  }

  /** The end of file of a pipe is its empty read, and no read follows it. */
  ghost predicate EndsOnce(input: seq<Read>) {
    forall i :: 0 <= i < |input| ==> Live(input, i)
  }

  ghost predicate Ended(input: seq<Read>, pipe: Fd) {
    exists i :: 0 <= i < |input| && input[i] == Read(pipe, [])
  }

  /** What steps of the output thread alone may do. */
  ghost predicate OnlyDrained(s: State, t: State) {
    && t.reader == s.reader && t.offered == s.offered && t.queued == s.queued && t.dropped == s.dropped
    && s.disabled <= t.disabled && |t.queue| <= |s.queue|
  }

  /** The state both threads share, with the reader's way of putting lines on the queue. */
  class Pump {
    const matches: bytes -> bool
    var state: State
    ghost var actions: seq<Action>

    /** Some interleaving of the two threads leads here. */
    ghost predicate Reached()
      reads this
    {
      state == Run(INIT, actions)
    }

    ghost predicate AtRest()
      reads this
    {
      Reached() && state.reader.Ready?
    }

    constructor (matches: bytes -> bool)
      ensures AtRest() && this.matches == matches && state == INIT
    {
      this.matches := matches;
      state := INIT;
      actions := [];
    }

    method Act(a: Action)
      requires Reached()
      modifies this
      ensures Reached() && state == Next(old(state), a)
    {
      RunSnoc(actions, a);
      state := Next(state, a);
      actions := actions + [a];
    }

    /** The output thread takes any number of steps, with any outcome of its writes. */
    method OtherThread()
      requires Reached()
      modifies this
      ensures Reached()
      ensures OnlyDrained(old(state), state)
    {
      var steps: nat := *;
      while steps > 0
        invariant Reached()
        invariant OnlyDrained(old(state), state)
      {
        var a: Action := *;
        if WriterAction(a) {
          Act(a);
        }
        steps := steps - 1;
      }
    }

    /** `_emit`: hand one line to the output thread, or account for it. */
    method Emit(fd: Fd, line: bytes)
      requires AtRest()
      modifies this
      ensures AtRest()
      ensures state.offered == if matches(line) then old(state).offered else Offered(old(state), fd, Line(line)).offered
      ensures matches(line) ==> state == old(state)
      ensures !matches(line) && fd !in state.disabled
              && |old(state).queue| + (if old(state).dropped.At(fd) == 0 then 1 else 2) <= 64 ==>
                Texts(state.queued.At(fd)) == Texts(old(state).queued.At(fd)) + [line] && state.dropped.At(fd) == 0
      ensures state.queued.At(Other(fd)) == old(state).queued.At(Other(fd))
      ensures state.dropped.At(Other(fd)) == old(state).dropped.At(Other(fd))
    {
      if matches(line) {
        return;
      }
      OtherThread();
      OfferGoesOn(state, fd, line);
      Act(Offer(fd, line));
      if state.reader.BeforeNotice? {
        Follow(PutNotice, fd, line);
      }
      if state.reader.BeforeLine? {
        Follow(PutLine, fd, line);
      }
    }

    /** The next put of `_emit`, after whatever the output thread does first. With room the item is queued:
        the line, or a notice of all drops so far. */
    method Follow(put: Action, fd: Fd, line: bytes)
      requires Reached()
      requires (put.PutNotice? && state.reader == BeforeNotice(fd, line))
               || (put.PutLine? && state.reader == BeforeLine(fd, line))
      modifies this
      ensures Reached() && state.offered == old(state).offered && old(state).disabled <= state.disabled
      ensures |state.queue| <= |old(state).queue| + 1
      ensures state.queued.At(Other(fd)) == old(state).queued.At(Other(fd))
      ensures state.dropped.At(Other(fd)) == old(state).dropped.At(Other(fd))
      ensures state.reader == if put.PutNotice? then BeforeLine(fd, line) else Ready
      ensures |old(state).queue| < 64 ==>
                && Texts(state.queued.At(fd)) == Texts(old(state).queued.At(fd)) + (if put.PutLine? then [line] else [])
                && state.dropped.At(fd) == if put.PutNotice? then 0 else old(state).dropped.At(fd)
    {
      OtherThread();
      if put.PutNotice? {
        NoticeIsQueuedExactlyWhen(state, fd, line);
        BooksSnoc(state.queued.At(fd), NoticeFor(state, fd));
      } else {
        LineIsQueuedExactlyWhen(state, fd, line);
        BooksSnoc(state.queued.At(fd), Text(fd, line));
      }
      Act(put);
    }

    /** `_emit_line`: an oversized line is only counted. */
    method EmitLine(fd: Fd, line: bytes)
      requires AtRest()
      modifies this
      ensures AtRest()
      ensures state.offered.At(fd) == old(state).offered.At(fd) + Kept([Classify(line)], matches)
      ensures state.offered.At(Other(fd)) == old(state).offered.At(Other(fd))
    {
      KeptSnoc([], Classify(line), matches);
      assert [] + [Classify(line)] == [Classify(line)];
      if |line| > MAX_LINE_SIZE {
        Act(Oversized(fd));
        return;
      }
      Emit(fd, line);
    }
  }

  /** The entries of `buffers` and `discarding` for one pipe. */
  class Splitter {
    const fd: Fd
    const pump: Pump
    var buffer: bytes
    var discarding: bool

    // history
    ghost var seen: bytes
    ghost var events: seq<Event>
    ghost var flushed: bool

    ghost predicate Books()
      reads this, pump
    {
      pump.AtRest() && pump.state.offered.At(fd) == Kept(events, pump.matches)
    }

    ghost predicate Open()
      reads this, pump
    {
      Books() && !flushed && CaughtUp(seen, events, buffer, discarding)
    }

    ghost predicate Done()
      reads this, pump
    {
      Books() && flushed && events == Events(seen)
    }

    constructor (fd: Fd, pump: Pump)
      requires pump.AtRest() && pump.state.offered.At(fd) == []
      ensures Open() && this.fd == fd && this.pump == pump && seen == []
    {
      this.fd := fd;
      this.pump := pump;
      buffer := [];
      discarding := false;
      seen := [];
      events := [];
      flushed := false;
    }

    lemma BufferIsBounded()
      requires Open()
      ensures |buffer| <= MAX_LINE_SIZE && (discarding ==> buffer == [])
    {
    }

    method EmitLine(line: bytes)
      requires Books()
      modifies `events, pump
      ensures Books()
      ensures events == old(events) + [Classify(line)]
      ensures pump.state.offered.At(Other(fd)) == old(pump.state).offered.At(Other(fd))
    {
      KeptSnoc(events, Classify(line), pump.matches);
      KeptSnoc([], Classify(line), pump.matches);
      assert [] + [Classify(line)] == [Classify(line)];
      events := events + [Classify(line)];
      pump.EmitLine(fd, line);
    }

    method CountOversized()
      requires Books()
      modifies `events, pump
      ensures Books()
      ensures events == old(events) + [Event.Drop]
      ensures pump.state.offered.At(Other(fd)) == old(pump.state).offered.At(Other(fd))
    {
      KeptSnoc(events, Event.Drop, pump.matches);
      events := events + [Event.Drop];
      pump.Act(Oversized(fd));
    }

    /** `_consume`: split a chunk read from a pipe that has not ended. */
    method Consume(data: bytes)
      requires Open()
      modifies this, pump
      ensures Open()
      ensures seen == old(seen) + data
      ensures pump.state.offered.At(Other(fd)) == old(pump.state).offered.At(Other(fd))
    {
      var chunk := data;
      while chunk != []
        invariant Open()
        invariant seen + chunk == old(seen) + data
        invariant pump.state.offered.At(Other(fd)) == old(pump.state).offered.At(Other(fd))
        decreases |chunk|
      {
        chunk := ConsumePiece(chunk);
      }
      assert seen + [] == seen;
    }

    /** One turn of the loop of `_consume`: the chunk up to its first newline, or all of it. */
    method ConsumePiece(chunk: bytes) returns (rest: bytes)
      requires Open() && chunk != []
      modifies this, pump
      ensures Open()
      ensures |rest| < |chunk| && seen + rest == old(seen) + chunk
      ensures pump.state.offered.At(Other(fd)) == old(pump.state).offered.At(Other(fd))
    {
      var newline := Find(chunk, NEWLINE);
      ghost var taken := if newline < 0 then chunk else chunk[..newline + 1];
      rest := if newline < 0 then [] else chunk[newline + 1..];
      Advance(seen, chunk, taken, rest);
      if newline < 0 {
        CaughtUpOpen(seen, events, buffer, discarding, chunk);
      } else {
        assert taken[..newline] == chunk[..newline];
        CaughtUpSettled(seen, events, buffer, discarding, taken);
      }
      seen := seen + taken;

      if discarding {
        discarding := newline < 0;
        return;
      }

      if newline < 0 {
        if |buffer| + |chunk| > MAX_LINE_SIZE {
          buffer := [];
          discarding := true;
          CountOversized();
        } else {
          buffer := buffer + chunk;
        }
        return;
      }

      var line := buffer + chunk[..newline + 1];
      buffer := [];
      EmitLine(line);
    }

    /** `_flush_partial`: the pipe has ended. */
    method FlushPartial()
      requires Open()
      modifies this, pump
      ensures Done() && seen == old(seen)
      ensures pump.state.offered.At(Other(fd)) == old(pump.state).offered.At(Other(fd))
    {
      CaughtUpEnd(seen, events, buffer, discarding);
      flushed := true;
      if discarding {
        return;
      }
      var line := buffer;
      buffer := [];
      if line != [] {
        EmitLine(line);
      }
    }

    /** One read of the main loop; the empty read is the end of file. */
    method Take(chunk: bytes)
      requires Open()
      modifies this, pump
      ensures if chunk == [] then Done() else Open()
      ensures seen == old(seen) + chunk
      ensures pump.state.offered.At(Other(fd)) == old(pump.state).offered.At(Other(fd))
    {
      if chunk == [] {
        FlushPartial();
        assert seen + [] == seen;
      } else {
        Consume(chunk);
      }
    }

    /** Where this pipe is after the given reads. */
    ghost predicate After(input: seq<Read>)
      reads this, pump
    {
      && seen == Stream(input, fd)
      && if Ended(input, fd) then Done() else Open()
    }

    lemma Ledger()
      requires Done()
      ensures Accounts(pump.state, fd, Kept(Events(seen), pump.matches))
    {
      EveryInterleaving(pump.actions, fd);
    }

    /** If the queue had room at every put and the descriptor did not fail, nothing is missing: the lines
        queued are exactly those of the stream that fit and match no pattern. */
    lemma NothingMissing()
      requires Done() && NeverFull(pump.actions) && fd !in pump.state.disabled
      ensures Texts(pump.state.queued.At(fd)) == LinesOf(Kept(Events(seen), pump.matches))
    {
      NothingIsLost(pump.actions, fd);
      assert Texts(pump.state.queued.At(fd)) + [] == Texts(pump.state.queued.At(fd));
    }
  }

  /** What a descriptor has received and lost of the unfiltered lines of its stream: the lines queued
      come in stream order, what is written is a prefix of what was queued, and every line is queued,
      reported as dropped, or still to be reported. */
  ghost predicate Accounts(s: State, fd: Fd, kept: seq<Event>) {
    && Subsequence(AsEvents(Texts(s.queued.At(fd))), kept)
    && |Texts(s.queued.At(fd))| + Carried(s.queued.At(fd)) + s.dropped.At(fd) == |kept|
    && s.sink.At(fd) <= Payloads(s.queued.At(fd), fd)
  }

  /** The two pipes' splitters, each where it should be after the given reads. */
  ghost predicate Both(out: Splitter, err: Splitter, input: seq<Read>)
    reads out, err, out.pump, err.pump
  {
    && out != err && out.pump == err.pump && out.fd == Stdout && err.fd == Stderr
    && out.After(input) && err.After(input)
  }

  /** The read loop of `main`: for every stream, every way the reads cut it, every interleaving of
      the two pipes and every behaviour of the output thread, the outcome is a matter of the two
      streams' lines only. */
  method Forward(matches: bytes -> bool, input: seq<Read>) returns (out: Splitter, err: Splitter)
    requires EndsOnce(input)
    ensures out.pump.matches == matches
    ensures Both(out, err, input)
  {
    out, err := Start(matches);
    for i := 0 to |input|
      invariant fresh(out) && fresh(err) && fresh(out.pump) && out.pump.matches == matches
      invariant Both(out, err, input[..i])
    {
      assert Live(input, i);
      TakeRead(out, err, input[i], input, i);
    }
    assert input[..|input|] == input;
  }

  method TakeRead(out: Splitter, err: Splitter, read: Read, ghost input: seq<Read>, ghost i: nat)
    requires i < |input| && Live(input, i) && input[i] == read
    requires Both(out, err, input[..i])
    modifies out, err, out.pump
    ensures Both(out, err, input[..i + 1])
  {
    var to, idle := out, err;
    if read.pipe.Stderr? {
      to, idle := err, out;
    }
    HandOver(to, idle, read.chunk, input, i);
  }

  method Start(matches: bytes -> bool) returns (out: Splitter, err: Splitter)
    ensures fresh(out) && fresh(err) && fresh(out.pump)
    ensures out.pump.matches == matches
    ensures Both(out, err, [])
  {
    var pump := new Pump(matches);
    out := new Splitter(Stdout, pump);
    err := new Splitter(Stderr, pump);
  }

  method HandOver(splitter: Splitter, idle: Splitter, chunk: bytes, ghost input: seq<Read>, ghost i: nat)
    requires i < |input| && Live(input, i) && input[i] == Read(splitter.fd, chunk)
    requires splitter != idle && splitter.pump == idle.pump && idle.fd == Other(splitter.fd)
    requires splitter.After(input[..i]) && idle.After(input[..i])
    modifies splitter, splitter.pump
    ensures splitter.After(input[..i + 1]) && idle.After(input[..i + 1])
  {
    StreamSnoc(input, i);
    splitter.Take(chunk);
    assert idle.Books();
  }

  lemma StreamSnoc(input: seq<Read>, i: nat)
    requires i < |input|
    ensures forall pipe: Fd ::
              && Stream(input[..i + 1], pipe)
                 == Stream(input[..i], pipe) + (if input[i].pipe == pipe then input[i].chunk else [])
              && (Ended(input[..i + 1], pipe) <==> Ended(input[..i], pipe) || input[i] == Read(pipe, []))
  {
    var more := input[..i + 1];
    assert more[..i] == input[..i] && more[i] == input[i];
    forall pipe: Fd
      ensures Ended(more, pipe) <==> Ended(input[..i], pipe) || input[i] == Read(pipe, [])
    {
      if Ended(input[..i], pipe) {
        var j :| 0 <= j < i && input[..i][j] == Read(pipe, []);
        assert more[j] == Read(pipe, []);
      }
    }
  }

  lemma Advance(seen: bytes, chunk: bytes, taken: bytes, rest: bytes)
    requires chunk == taken + rest
    ensures seen + taken + rest == seen + chunk
  {
  }
}
