/** What the log pump owes its caller: when a line is queued, when it is not, and what that comes to over
    a whole run. The accounts of `LogPump` would also fit a pump that drops everything. */
module LogDelivery {
  import opened Bytes
  import opened LogLines
  import opened LogPump
  import Decimal

  // ---- one put at a time ----

  /** With fewer than 64 items in the queue the line is queued as it is; a full queue costs one drop. */
  lemma LineIsQueuedExactlyWhen(s: State, fd: Fd, line: bytes)
    requires s.reader == BeforeLine(fd, line)
    ensures var t := Next(s, PutLine);
            && t.reader == Ready && t.queued.At(Other(fd)) == s.queued.At(Other(fd))
            && t.dropped.At(Other(fd)) == s.dropped.At(Other(fd))
            && if |s.queue| < 64 then
                 && t.queue == s.queue + [Text(fd, line)] && t.queued.At(fd) == s.queued.At(fd) + [Text(fd, line)]
                 && t.dropped.At(fd) == s.dropped.At(fd)
               else
                 && t.queue == s.queue && t.queued.At(fd) == s.queued.At(fd)
                 && t.dropped.At(fd) == s.dropped.At(fd) + 1
  {
  }

  /** With room a notice of all drops so far is queued and the counter starts again; without, nothing
      happens. The line is next either way. */
  lemma NoticeIsQueuedExactlyWhen(s: State, fd: Fd, line: bytes)
    requires s.reader == BeforeNotice(fd, line)
    ensures var t, notice := Next(s, PutNotice), Notice(fd, s.dropped.At(fd), NoticeText(s.dropped.At(fd)));
            && t.reader == BeforeLine(fd, line) && t.queued.At(Other(fd)) == s.queued.At(Other(fd))
            && t.dropped.At(Other(fd)) == s.dropped.At(Other(fd))
            && if |s.queue| < 64 then
                 && t.queue == s.queue + [notice] && t.queued.At(fd) == s.queued.At(fd) + [notice]
                 && t.dropped.At(fd) == 0
               else t.queue == s.queue && t.queued.At(fd) == s.queued.At(fd) && t.dropped.At(fd) == s.dropped.At(fd)
  {
  }

  /** A line for a disabled descriptor is dropped at once; one for a working descriptor goes on to the
      queue, after a notice if there are drops to report. */
  lemma OfferGoesOn(s: State, fd: Fd, line: bytes)
    requires s.reader == Ready
    ensures var t := Next(s, Offer(fd, line));
            && t.queue == s.queue && t.queued == s.queued && t.disabled == s.disabled
            && t.dropped.At(Other(fd)) == s.dropped.At(Other(fd))
            && t.dropped.At(fd) == s.dropped.At(fd) + (if fd in s.disabled then 1 else 0)
            && t.reader == (if fd in s.disabled then Ready
                            else if s.dropped.At(fd) > 0 then BeforeNotice(fd, line) else BeforeLine(fd, line))
  {
  }

  /** At the end a full queue costs the writer its sentinel, and nothing else. */
  lemma StopIsQueuedExactlyWhen(s: State)
    requires s.reader == Ready
    ensures Next(s, PutStop) == s.(reader := Closed, queue := s.queue + if |s.queue| < 64 then [Stop] else [])
  {
  }

  /** The writer takes items first come, first served: it ends with the sentinel, passes over what is for a
      disabled descriptor and writes the bytes of everything else. */
  lemma TakenIsWritten(s: State)
    requires s.writer == Waiting && s.queue != []
    ensures var t, item := Next(s, Take), s.queue[0];
            && t.queue == s.queue[1..] && t.sink == s.sink && t.disabled == s.disabled
            && t.writer == match item
                           case Stop => Stopped
                           case Text(fd, data) =>
                             if fd in s.disabled || data == [] then Waiting else Writing(fd, data)
                           case Notice(fd, _, data) =>
                             if fd in s.disabled || data == [] then Waiting else Writing(fd, data)
  {
  }

  lemma PrintIsInjective(m: nat, n: nat)
    requires Decimal.Print(m) == Decimal.Print(n)
    ensures m == n
  {
    Decimal.ValueOfPrint(m);
    Decimal.ValueOfPrint(n);
  }

  lemma AsciiOf(s: string)
    requires forall i :: 0 <= i < |s| ==> s[i] < 128 as char
    ensures |Ascii(s)| == |s| && forall i :: 0 <= i < |s| ==> Ascii(s)[i] as int == s[i] as int
  {
  }

  lemma NoNewlineIn(s: string)
    requires (forall i :: 0 <= i < |s| ==> s[i] < 128 as char) && '\n' !in s
    ensures NEWLINE !in Ascii(s)
  {
    AsciiOf(s);
  }

  lemma HeadHasNoNewline()
    ensures NEWLINE !in Ascii("[mailu log filter] dropped ")
  {
    NoNewlineIn("[mailu log filter] dropped ");
  }

  lemma TailHasNoNewline()
    ensures NEWLINE !in Ascii(" log lines (backpressure or oversized line)")
  {
    NoNewlineIn(" log lines (backpressure or oversized line)");
  }

  lemma LineOfParts(head: bytes, digits: bytes, tail: bytes)
    requires NEWLINE !in head && Decimal.IsNumeral(digits) && NEWLINE !in tail
    ensures Terminated(head + digits + tail + [NEWLINE])
  {
    var line := head + digits + tail + [NEWLINE];
    assert line[..|line| - 1] == head + digits + tail;
    assert NEWLINE !in digits;
  }

  /** A notice is one line of text with the number of drops in it. */
  lemma NoticeIsALine(n: nat)
    ensures Terminated(NoticeText(n))
  {
    HeadHasNoNewline();
    TailHasNoNewline();
    LineOfParts(Ascii("[mailu log filter] dropped "), Decimal.Print(n),
                Ascii(" log lines (backpressure or oversized line)"));
  }

  lemma NoticesTellTheCount(m: nat, n: nat)
    requires NoticeText(m) == NoticeText(n)
    ensures m == n
  {
    NumbersAgree(Ascii("[mailu log filter] dropped "), Decimal.Print(m), Decimal.Print(n),
                 Ascii(" log lines (backpressure or oversized line)"), [NEWLINE]);
    PrintIsInjective(m, n);
  }

  lemma NumbersAgree(head: bytes, a: bytes, b: bytes, tail: bytes, end: bytes)
    requires head + a + tail + end == head + b + tail + end
    ensures a == b
  {
    assert |a| == |b|;
    assert (head + a + tail + end)[|head|..|head| + |a|] == a;
    assert (head + b + tail + end)[|head|..|head| + |b|] == b;
  }

  // ---- whole runs ----

  /** The lines among the events. */
  function LinesOf(events: seq<Event>): seq<bytes> {
    if events == [] then []
    else
      var e := events[|events| - 1];
      LinesOf(events[..|events| - 1]) + if e.Line? then [e.text] else []
  }

  lemma LinesSnoc(events: seq<Event>, e: Event)
    ensures LinesOf(events + [e]) == LinesOf(events) + if e.Line? then [e.text] else []
  {
    assert (events + [e])[..|events|] == events;
  }

  /** All lines offered for `fd` have been queued, but for the one in flight. */
  ghost predicate NoneLost(s: State, fd: Fd) {
    Texts(s.queued.At(fd)) + InFlight(s.reader, fd) == LinesOf(s.offered.At(fd))
  }

  lemma NoneLostFrame(s: State, t: State, fd: Fd)
    requires NoneLost(s, fd) && t.queued.At(fd) == s.queued.At(fd) && t.offered.At(fd) == s.offered.At(fd)
    requires InFlight(t.reader, fd) == InFlight(s.reader, fd)
    ensures NoneLost(t, fd)
  {
  }

  lemma NoneLostOffer(s: State, fd: Fd, line: bytes)
    requires NoneLost(s, fd) && s.reader.Ready? && fd !in s.disabled
    ensures NoneLost(Next(s, Offer(fd, line)), fd)
  {
    OfferGoesOn(s, fd, line);
    var t := Next(s, Offer(fd, line));
    LinesSnoc(s.offered.At(fd), Line(line));
    assert InFlight(s.reader, fd) == [] && InFlight(t.reader, fd) == [line];
    assert Texts(s.queued.At(fd)) + [] == Texts(s.queued.At(fd));
  }

  lemma NoneLostOversized(s: State, fd: Fd)
    requires NoneLost(s, fd) && s.reader.Ready?
    ensures NoneLost(Next(s, Oversized(fd)), fd)
  {
    LinesSnoc(s.offered.At(fd), Event.Drop);
    assert LinesOf(s.offered.At(fd)) + [] == LinesOf(s.offered.At(fd));
  }

  lemma NoneLostNotice(s: State, fd: Fd, line: bytes)
    requires NoneLost(s, fd) && s.reader == BeforeNotice(fd, line)
    ensures NoneLost(Next(s, PutNotice), fd)
  {
    NoticeIsQueuedExactlyWhen(s, fd, line);
    BooksSnoc(s.queued.At(fd), NoticeFor(s, fd));
    assert Texts(s.queued.At(fd)) + [] == Texts(s.queued.At(fd));
  }

  lemma NoneLostLine(s: State, fd: Fd, line: bytes)
    requires NoneLost(s, fd) && s.reader == BeforeLine(fd, line) && |s.queue| < 64
    ensures NoneLost(Next(s, PutLine), fd)
  {
    LineIsQueuedExactlyWhen(s, fd, line);
    BooksSnoc(s.queued.At(fd), Text(fd, line));
    assert Texts(s.queued.At(fd)) + [line] + [] == Texts(s.queued.At(fd)) + [line];
  }

  lemma NoneLostStep(s: State, a: Action, fd: Fd)
    requires NoneLost(s, fd) && fd !in s.disabled && (a.PutLine? ==> |s.queue| < 64)
    ensures NoneLost(Next(s, a), fd)
  {
    if Enabled(s, a) {
      match a
      case Oversized(to) =>
        if to == fd { NoneLostOversized(s, fd); } else { NoneLostFrame(s, Next(s, a), fd); }
      case Offer(to, line) =>
        if to == fd { NoneLostOffer(s, fd, line); } else { NoneLostFrame(s, Next(s, a), fd); }
      case PutNotice =>
        if s.reader.fd == fd { NoneLostNotice(s, fd, s.reader.line); } else { NoneLostFrame(s, Next(s, a), fd); }
      case PutLine =>
        if s.reader.fd == fd { NoneLostLine(s, fd, s.reader.line); } else { NoneLostFrame(s, Next(s, a), fd); }
      case PutStop => NoneLostFrame(s, Next(s, a), fd);
      case Take => NoneLostFrame(s, Next(s, a), fd);
      case Wrote(n) => NoneLostFrame(s, Next(s, a), fd);
      case Retry =>
      case Fail => NoneLostFrame(s, Next(s, a), fd);
    }
  }

  /** The queue has room whenever a line is put. */
  ghost predicate NeverFull(actions: seq<Action>) {
    forall i :: 0 <= i < |actions| && actions[i].PutLine? ==> |Run(INIT, actions[..i]).queue| < 64
  }

  lemma DisabledGrows(s: State, a: Action)
    ensures s.disabled <= Next(s, a).disabled
    ensures Next(s, a).disabled != s.disabled ==>
              a.Fail? && s.writer.Writing? && Next(s, a).disabled == s.disabled + {s.writer.fd}
  {
  }

  /** Without a full queue and a failing descriptor no line is lost, whatever the interleaving. */
  lemma {:induction false} NothingIsLost(actions: seq<Action>, fd: Fd)
    requires NeverFull(actions) && fd !in Run(INIT, actions).disabled
    ensures NoneLost(Run(INIT, actions), fd)
  {
    if actions != [] {
      var k := |actions| - 1;
      var front := actions[..k];
      DisabledGrows(Run(INIT, front), actions[k]);
      forall i | 0 <= i < |front| && front[i].PutLine?
        ensures |Run(INIT, front[..i]).queue| < 64
      {
        assert front[..i] == actions[..i];
      }
      NothingIsLost(front, fd);
      NoneLostStep(Run(INIT, front), actions[k], fd);
    }
  }

  /** So after an orderly end every line offered has been written, whole and in order, among nothing but
      notices. */
  lemma EveryLineIsWritten(actions: seq<Action>, fd: Fd)
    requires NeverFull(actions) && fd !in Run(INIT, actions).disabled && Run(INIT, actions).writer.Stopped?
    ensures var s := Run(INIT, actions);
            && Texts(s.queued.At(fd)) == LinesOf(s.offered.At(fd))
            && s.sink.At(fd) == Payloads(s.queued.At(fd), fd)
            && Carried(s.queued.At(fd)) + s.dropped.At(fd) == |s.offered.At(fd)| - |LinesOf(s.offered.At(fd))|
  {
    var s := Run(INIT, actions);
    InvRun(actions);
    EveryInterleaving(actions, fd);
    NothingIsLost(actions, fd);
    assert Texts(s.queued.At(fd)) + [] == Texts(s.queued.At(fd));
  }

  /** A descriptor is given up only when a write to it fails for good. */
  lemma {:induction false} DisabledByFailure(actions: seq<Action>, fd: Fd) returns (i: nat)
    requires fd in Run(INIT, actions).disabled
    ensures i < |actions| && actions[i].Fail?
    ensures var s := Run(INIT, actions[..i]); s.writer.Writing? && s.writer.fd == fd
  {
    var k := |actions| - 1;
    var front := actions[..k];
    DisabledGrows(Run(INIT, front), actions[k]);
    if fd in Run(INIT, front).disabled {
      i := DisabledByFailure(front, fd);
      assert front[..i] == actions[..i];
    } else {
      i := k;
    }
  }

  /** And nothing is written to it any more. */
  lemma SilentAfterFailure(s: State, a: Action, fd: Fd)
    requires Ordered(s) && fd in s.disabled
    ensures Next(s, a).sink.At(fd) == s.sink.At(fd) && fd in Next(s, a).disabled
  {
  }

  /** Each write appends exactly the bytes the descriptor took, and the rest stays in hand. */
  lemma WritesAreExact(s: State, n: nat)
    requires s.writer.Writing? && 1 <= n <= |s.writer.remaining|
    ensures var t, fd := Next(s, Wrote(n)), s.writer.fd;
            && t.sink.At(fd) == s.sink.At(fd) + s.writer.remaining[..n]
            && t.sink.At(Other(fd)) == s.sink.At(Other(fd))
            && t.writer == (if n < |s.writer.remaining| then Writing(fd, s.writer.remaining[n..]) else Waiting)
            && t.disabled == s.disabled && t.queue == s.queue
    ensures Next(s, Retry) == s
  {
  }
}
