/** The bounded queue between the pipe reader and the output thread of the log filter.
    Each action below is one step of one thread between two accesses to the shared queue or to
    `disabled`; a sequence of actions is an interleaving of the two threads. */
module LogPump {
  import opened Bytes
  import opened LogLines
  import Decimal

  const MAX_QUEUED_LINES := 64

  datatype Fd = Stdout | Stderr

  function Other(fd: Fd): Fd {
    if fd.Stdout? then Stderr else Stdout
  }

  datatype Item = Text(fd: Fd, data: bytes) | Notice(fd: Fd, count: nat, data: bytes) | Stop

  /** The source's dictionaries that hold one entry for each of the two descriptors. */
  datatype PerFd<T> = PerFd(stdout: T, stderr: T) {
    function At(fd: Fd): T {
      if fd.Stdout? then stdout else stderr
    }

    function With(fd: Fd, value: T): PerFd<T> {
      if fd.Stdout? then this.(stdout := value) else this.(stderr := value)
    }
  }

  function Ascii(s: string): bytes
    requires forall i :: 0 <= i < |s| ==> s[i] < 128 as char
  {
    seq(|s|, i requires 0 <= i < |s| => (s[i] as int) as byte)
  }

  function NoticeText(count: nat): bytes {
    Ascii("[mailu log filter] dropped ") + Decimal.Print(count)
      + Ascii(" log lines (backpressure or oversized line)") + [NEWLINE]
  }

  /** The bytes the output thread writes for an item. */
  function Payload(item: Item): bytes {
    match item
    case Text(_, data) => data
    case Notice(_, _, data) => data
    case Stop => []
  }

  /** Where the reader is inside `_emit`, and where the output thread is inside its loop. */
  datatype Reader = Ready | BeforeNotice(fd: Fd, line: bytes) | BeforeLine(fd: Fd, line: bytes) | Closed
  datatype Writer = Waiting | Writing(fd: Fd, remaining: bytes) | Stopped

  /** The last three fields are history: bytes accepted by each descriptor, items ever put on the
      queue for it, and lines the reader had to account for on it. */
  datatype State = State(
    queue: seq<Item>,
    dropped: PerFd<nat>,
    disabled: set<Fd>,
    reader: Reader,
    writer: Writer,
    sink: PerFd<bytes>,
    queued: PerFd<seq<Item>>,
    offered: PerFd<seq<Event>>)

  datatype Action =
    // reader thread
    | Oversized(fd: Fd)
    | Offer(fd: Fd, line: bytes)
    | PutNotice
    | PutLine
    | PutStop
    // output thread
    | Take
    | Wrote(n: nat)
    | Retry
    | Fail

  const INIT := State([], PerFd(0, 0), {}, Ready, Waiting, PerFd([], []), PerFd([], []), PerFd([], []))

  predicate HasRoom(s: State) {
    |s.queue| < MAX_QUEUED_LINES
  }

  function Put(s: State, item: Item): State
    requires !item.Stop?
  {
    s.(queue := s.queue + [item], queued := s.queued.With(item.fd, s.queued.At(item.fd) + [item]))
  }

  predicate Enabled(s: State, a: Action) {
    match a
    case Oversized(_) => s.reader.Ready?
    case Offer(_, _) => s.reader.Ready?
    case PutNotice => s.reader.BeforeNotice?
    case PutLine => s.reader.BeforeLine?
    case PutStop => s.reader.Ready?
    case Take => s.writer.Waiting? && s.queue != []
    case Wrote(n) => s.writer.Writing? && 1 <= n <= |s.writer.remaining|
    case Retry => s.writer.Writing?
    case Fail => s.writer.Writing?
  }

  function Drop(s: State, fd: Fd): State {
    s.(dropped := s.dropped.With(fd, s.dropped.At(fd) + 1))
  }

  function Offered(s: State, fd: Fd, e: Event): State {
    s.(offered := s.offered.With(fd, s.offered.At(fd) + [e]))
  }

  function Proceed(fd: Fd, remaining: bytes): Writer {
    if remaining == [] then Waiting else Writing(fd, remaining)
  }

  function OfferLine(s: State, fd: Fd, line: bytes): State {
    var s := Offered(s, fd, Line(line));
    if fd in s.disabled then Drop(s, fd)
    else if s.dropped.At(fd) > 0 then s.(reader := BeforeNotice(fd, line))
    else s.(reader := BeforeLine(fd, line))
  }

  function NoticeFor(s: State, fd: Fd): Item {
    Notice(fd, s.dropped.At(fd), NoticeText(s.dropped.At(fd)))
  }

  function TryNotice(s: State, fd: Fd, line: bytes): State {
    var s := s.(reader := BeforeLine(fd, line));
    if HasRoom(s) then Put(s, NoticeFor(s, fd)).(dropped := s.dropped.With(fd, 0)) else s
  }

  function TryLine(s: State, fd: Fd, line: bytes): State {
    var s := s.(reader := Ready);
    if HasRoom(s) then Put(s, Text(fd, line)) else Drop(s, fd)
  }

  function TryStop(s: State): State {
    var s := s.(reader := Closed);
    if HasRoom(s) then s.(queue := s.queue + [Stop]) else s
  }

  function TakeFirst(s: State): State
    requires s.queue != []
  {
    var item := s.queue[0];
    var s := s.(queue := s.queue[1..]);
    if item.Stop? then s.(writer := Stopped)
    else if item.fd in s.disabled then s
    else s.(writer := Proceed(item.fd, Payload(item)))
  }

  function WriteSome(s: State, fd: Fd, remaining: bytes, n: nat): State
    requires n <= |remaining|
  {
    s.(sink := s.sink.With(fd, s.sink.At(fd) + remaining[..n]), writer := Proceed(fd, remaining[n..]))
  }

  /** One step; an action that is not enabled leaves the state as it is. */
  function Next(s: State, a: Action): State {
    if !Enabled(s, a) then s else
    match a
    case Oversized(fd) => Drop(Offered(s, fd, Event.Drop), fd)
    case Offer(fd, line) => OfferLine(s, fd, line)
    case PutNotice => TryNotice(s, s.reader.fd, s.reader.line)
    case PutLine => TryLine(s, s.reader.fd, s.reader.line)
    case PutStop => TryStop(s)
    case Take => TakeFirst(s)
    case Wrote(n) => WriteSome(s, s.writer.fd, s.writer.remaining, n)
    case Retry => s
    case Fail => s.(disabled := s.disabled + {s.writer.fd}, writer := Waiting)
  }

  function Run(s: State, actions: seq<Action>): State {
    if actions == [] then s
    else Next(Run(s, actions[..|actions| - 1]), actions[|actions| - 1])
  }

  predicate WriterAction(a: Action) {
    a.Take? || a.Wrote? || a.Retry? || a.Fail?
  }

  // ---- what every interleaving keeps ----

  function Share(item: Item, fd: Fd): bytes {
    if !item.Stop? && item.fd == fd then Payload(item) else []
  }

  /** The bytes of the items for one descriptor, in queue order. */
  function Payloads(items: seq<Item>, fd: Fd): bytes {
    if items == [] then []
    else Payloads(items[..|items| - 1], fd) + Share(items[|items| - 1], fd)
  }

  function InHand(w: Writer, fd: Fd): bytes {
    if w.Writing? && w.fd == fd then w.remaining else []
  }

  /** The log lines among the items. */
  function Texts(items: seq<Item>): seq<bytes> {
    if items == [] then []
    else
      var it := items[|items| - 1];
      Texts(items[..|items| - 1]) + if it.Text? then [it.data] else []
  }

  /** Drops reported by the notices among the items. */
  function Carried(items: seq<Item>): nat {
    if items == [] then 0
    else
      var it := items[|items| - 1];
      Carried(items[..|items| - 1]) + if it.Notice? then it.count else 0
  }

  function InFlight(r: Reader, fd: Fd): seq<bytes> {
    if (r.BeforeNotice? || r.BeforeLine?) && r.fd == fd then [r.line] else []
  }

  /** `a` can be had from `b` by leaving elements out. */
  ghost predicate Subsequence<T(!new)>(a: seq<T>, b: seq<T>) {
    if a == [] then true
    else if b == [] then false
    else Subsequence(a, b[..|b| - 1])
         || (a[|a| - 1] == b[|b| - 1] && Subsequence(a[..|a| - 1], b[..|b| - 1]))
  }

  function AsEvents(lines: seq<bytes>): seq<Event> {
    if lines == [] then [] else AsEvents(lines[..|lines| - 1]) + [Line(lines[|lines| - 1])]
  }

  /** An item put on the queue for `fd`; a notice spells out the count it carries. */
  predicate IsFor(item: Item, fd: Fd) {
    match item
    case Text(to, _) => to == fd
    case Notice(to, count, data) => to == fd && count > 0 && data == NoticeText(count)
    case Stop => false
  }

  ghost predicate Filed(s: State, fd: Fd) {
    forall i :: 0 <= i < |s.queued.At(fd)| ==> IsFor(s.queued.At(fd)[i], fd)
  }

  /** Everything put on the queue for `fd` is written, in the writer's hand, or still queued. */
  ghost predicate Delivers(s: State, fd: Fd) {
    if fd in s.disabled then s.sink.At(fd) <= Payloads(s.queued.At(fd), fd)
    else s.sink.At(fd) + InHand(s.writer, fd) + Payloads(s.queue, fd) == Payloads(s.queued.At(fd), fd)
  }

  /** Every line offered is queued, in flight, reported by a notice, or still to be reported. */
  ghost predicate Balances(s: State, fd: Fd) {
    |Texts(s.queued.At(fd))| + |InFlight(s.reader, fd)| + Carried(s.queued.At(fd)) + s.dropped.At(fd)
    == |s.offered.At(fd)|
  }

  /** Lines are queued in the order in which they were offered. */
  ghost predicate InOrder(s: State, fd: Fd) {
    Subsequence(AsEvents(Texts(s.queued.At(fd)) + InFlight(s.reader, fd)), s.offered.At(fd))
  }

  ghost predicate Ordered(s: State) {
    && |s.queue| <= MAX_QUEUED_LINES
    && (s.writer.Writing? ==> s.writer.remaining != [] && s.writer.fd !in s.disabled)
    && (forall i :: 0 <= i < |s.queue| && s.queue[i].Stop? ==> i == |s.queue| - 1 && s.reader.Closed?)
    && (s.reader.BeforeNotice? ==> s.dropped.At(s.reader.fd) > 0)
    && (s.writer.Stopped? ==> s.queue == [] && s.reader.Closed?)
  }

  ghost predicate Inv(s: State) {
    && Ordered(s)
    && forall fd: Fd :: Filed(s, fd) && Delivers(s, fd) && Balances(s, fd) && InOrder(s, fd)
  }

  lemma PayloadsSnoc(items: seq<Item>, it: Item, fd: Fd)
    ensures Payloads(items + [it], fd) == Payloads(items, fd) + Share(it, fd)
  {
    assert (items + [it])[..|items|] == items;
  }

  lemma BooksSnoc(items: seq<Item>, it: Item)
    ensures Texts(items + [it]) == Texts(items) + if it.Text? then [it.data] else []
    ensures Carried(items + [it]) == Carried(items) + if it.Notice? then it.count else 0
  {
    assert (items + [it])[..|items|] == items;
  }

  lemma {:induction false} PayloadsCons(it: Item, items: seq<Item>, fd: Fd)
    ensures Payloads([it] + items, fd) == Share(it, fd) + Payloads(items, fd)
  {
    if items == [] {
      PayloadsSnoc([], it, fd);
      assert [it] + items == [] + [it];
    } else {
      var front, last := items[..|items| - 1], items[|items| - 1];
      PayloadsCons(it, front, fd);
      assert [it] + items == [it] + front + [last];
      PayloadsSnoc([it] + front, last, fd);
      Assoc(Share(it, fd), Payloads(front, fd), Share(last, fd));
    }
  }

  lemma {:induction false} SubsequenceWiden<T(!new)>(a: seq<T>, b: seq<T>, x: T)
    requires Subsequence(a, b)
    ensures Subsequence(a, b + [x]) && Subsequence(a + [x], b + [x])
  {
    assert (b + [x])[..|b|] == b;
    assert (a + [x])[..|a|] == a;
  }

  lemma {:induction false} SubsequenceInit<T(!new)>(a: seq<T>, b: seq<T>)
    requires a != [] && Subsequence(a, b)
    ensures Subsequence(a[..|a| - 1], b)
    decreases |b|
  {
    var b' := b[..|b| - 1];
    if Subsequence(a, b') {
      SubsequenceInit(a, b');
    }
    SubsequenceWiden(a[..|a| - 1], b', b[|b| - 1]);
    assert b' + [b[|b| - 1]] == b;
  }

  lemma EventsSnoc(lines: seq<bytes>, line: bytes)
    ensures AsEvents(lines + [line]) == AsEvents(lines) + [Line(line)]
  {
    assert (lines + [line])[..|lines|] == lines;
  }

  lemma OrderedStep(s: State, a: Action)
    requires Ordered(s)
    ensures Ordered(Next(s, a))
  {
  }

  lemma DeliversPut(s: State, item: Item, fd: Fd)
    requires !item.Stop? && Delivers(s, fd)
    ensures Delivers(Put(s, item), fd)
  {
    PayloadsSnoc(s.queue, item, fd);
    PayloadsSnoc(s.queued.At(fd), item, fd);
    Assoc(s.sink.At(fd) + InHand(s.writer, fd), Payloads(s.queue, fd), Share(item, fd));
    var t := Put(s, item);
    if fd == item.fd {
      assert t.queued.At(fd) == s.queued.At(fd) + [item];
    } else {
      assert Payloads(t.queue, fd) == Payloads(s.queue, fd);
    }
  }

  lemma DeliversTake(s: State, fd: Fd)
    requires s.queue != [] && s.writer.Waiting? && Delivers(s, fd)
    ensures Delivers(TakeFirst(s), fd)
  {
    var it, rest := s.queue[0], s.queue[1..];
    assert s.queue == [it] + rest;
    PayloadsCons(it, rest, fd);
    if fd !in s.disabled {
      var t := TakeFirst(s);
      assert InHand(t.writer, fd) == Share(it, fd);
      Assoc(s.sink.At(fd), Share(it, fd), Payloads(rest, fd));
      assert s.sink.At(fd) + [] == s.sink.At(fd);
    }
  }

  lemma DeliversWrote(s: State, n: nat, fd: Fd)
    requires s.writer.Writing? && s.writer.fd !in s.disabled && n <= |s.writer.remaining| && Delivers(s, fd)
    ensures Delivers(WriteSome(s, s.writer.fd, s.writer.remaining, n), fd)
  {
    var Writing(to, rem) := s.writer;
    if to == fd {
      var t := WriteSome(s, fd, rem, n);
      assert rem == rem[..n] + rem[n..];
      assert InHand(t.writer, fd) == rem[n..];
      Assoc(s.sink.At(fd), rem[..n], rem[n..]);
    }
  }

  /** A step that does not touch what `fd` gets keeps `Delivers`. */
  lemma DeliversFrame(s: State, t: State, fd: Fd)
    requires Delivers(s, fd)
    requires t.sink == s.sink && t.queued == s.queued && InHand(t.writer, fd) == InHand(s.writer, fd)
    requires Payloads(t.queue, fd) == Payloads(s.queue, fd) && (fd in t.disabled <==> fd in s.disabled)
    ensures Delivers(t, fd)
  {
  }

  lemma DeliversTryNotice(s: State, fd: Fd, to: Fd, line: bytes)
    requires Delivers(s, fd)
    ensures Delivers(TryNotice(s, to, line), fd)
  {
    var t := s.(reader := BeforeLine(to, line));
    DeliversFrame(s, t, fd);
    if HasRoom(t) {
      var u := Put(t, NoticeFor(t, to));
      DeliversPut(t, NoticeFor(t, to), fd);
      DeliversFrame(u, u.(dropped := t.dropped.With(to, 0)), fd);
    }
  }

  lemma DeliversTryLine(s: State, fd: Fd, to: Fd, line: bytes)
    requires Delivers(s, fd)
    ensures Delivers(TryLine(s, to, line), fd)
  {
    var t := s.(reader := Ready);
    DeliversFrame(s, t, fd);
    if HasRoom(t) {
      DeliversPut(t, Text(to, line), fd);
    } else {
      DeliversFrame(t, Drop(t, to), fd);
    }
  }

  lemma DeliversStop(s: State, fd: Fd)
    requires Delivers(s, fd)
    ensures Delivers(TryStop(s), fd)
  {
    PayloadsSnoc(s.queue, Stop, fd);
    DeliversFrame(s, TryStop(s), fd);
  }

  lemma DeliversFail(s: State, fd: Fd)
    requires s.writer.Writing? && Delivers(s, fd)
    ensures Delivers(s.(disabled := s.disabled + {s.writer.fd}, writer := Waiting), fd)
  {
    if s.writer.fd == fd && fd !in s.disabled {
      Assoc(s.sink.At(fd), InHand(s.writer, fd), Payloads(s.queue, fd));
      assert s.sink.At(fd) <= s.sink.At(fd) + (InHand(s.writer, fd) + Payloads(s.queue, fd));
    }
  }

  lemma DeliversStep(s: State, a: Action, fd: Fd)
    requires Ordered(s) && Delivers(s, fd) && Enabled(s, a)
    ensures Delivers(Next(s, a), fd)
  {
    match a
    case Take => DeliversTake(s, fd);
    case Wrote(n) => DeliversWrote(s, n, fd);
    case Fail => DeliversFail(s, fd);
    case PutNotice => DeliversTryNotice(s, fd, s.reader.fd, s.reader.line);
    case PutLine => DeliversTryLine(s, fd, s.reader.fd, s.reader.line);
    case PutStop => DeliversStop(s, fd);
    case Oversized(to) => DeliversFrame(s, Drop(Offered(s, to, Event.Drop), to), fd);
    case Offer(to, line) => DeliversFrame(s, OfferLine(s, to, line), fd);
    case Retry =>
  }

  lemma FiledStep(s: State, a: Action, fd: Fd)
    requires Ordered(s) && Filed(s, fd)
    ensures Filed(Next(s, a), fd)
  {
    var before, after := s.queued.At(fd), Next(s, a).queued.At(fd);
    if after != before {
      var item := after[|before|];
      assert after == before + [item] && IsFor(item, fd);
    }
  }

  lemma AccountOversized(s: State, fd: Fd)
    requires s.reader.Ready? && Balances(s, fd) && InOrder(s, fd)
    ensures var t := Drop(Offered(s, fd, Event.Drop), fd); Balances(t, fd) && InOrder(t, fd)
  {
    SubsequenceWiden(AsEvents(Texts(s.queued.At(fd)) + []), s.offered.At(fd), Event.Drop);
  }

  lemma AccountOffer(s: State, fd: Fd, line: bytes)
    requires s.reader.Ready? && Balances(s, fd) && InOrder(s, fd)
    ensures var t := OfferLine(s, fd, line); Balances(t, fd) && InOrder(t, fd)
  {
    var done := Texts(s.queued.At(fd));
    assert done + [] == done;
    SubsequenceWiden(AsEvents(done), s.offered.At(fd), Line(line));
    EventsSnoc(done, line);
  }

  lemma AccountNotice(s: State, fd: Fd, line: bytes)
    requires s.reader == BeforeNotice(fd, line) && Balances(s, fd) && InOrder(s, fd)
    ensures var t := TryNotice(s, fd, line); Balances(t, fd) && InOrder(t, fd)
  {
    BooksSnoc(s.queued.At(fd), NoticeFor(s, fd));
    var done := Texts(s.queued.At(fd));
    assert done + [] == done;
  }

  lemma AccountLine(s: State, fd: Fd, line: bytes)
    requires s.reader == BeforeLine(fd, line) && Balances(s, fd) && InOrder(s, fd)
    ensures var t := TryLine(s, fd, line); Balances(t, fd) && InOrder(t, fd)
  {
    var done := Texts(s.queued.At(fd));
    BooksSnoc(s.queued.At(fd), Text(fd, line));
    EventsSnoc(done, line);
    var all := AsEvents(done + [line]);
    SubsequenceInit(all, s.offered.At(fd));
    assert all[..|all| - 1] == AsEvents(done);
    assert done + [] == done && done + [line] + [] == done + [line];
  }

  /** A step that does not touch the books of `fd` keeps them. */
  lemma AccountFrame(s: State, t: State, fd: Fd)
    requires Balances(s, fd) && InOrder(s, fd)
    requires t.queued.At(fd) == s.queued.At(fd) && t.offered.At(fd) == s.offered.At(fd)
    requires t.dropped.At(fd) == s.dropped.At(fd) && InFlight(t.reader, fd) == InFlight(s.reader, fd)
    ensures Balances(t, fd) && InOrder(t, fd)
  {
  }

  lemma AccountStep(s: State, a: Action, fd: Fd)
    requires Balances(s, fd) && InOrder(s, fd) && Enabled(s, a)
    ensures Balances(Next(s, a), fd) && InOrder(Next(s, a), fd)
  {
    match a
    case Oversized(to) =>
      if to == fd { AccountOversized(s, fd); } else { AccountFrame(s, Drop(Offered(s, to, Event.Drop), to), fd); }
    case Offer(to, line) =>
      if to == fd { AccountOffer(s, fd, line); } else { AccountFrame(s, OfferLine(s, to, line), fd); }
    case PutNotice =>
      var BeforeNotice(to, line) := s.reader;
      if to == fd { AccountNotice(s, fd, line); } else { AccountFrame(s, TryNotice(s, to, line), fd); }
    case PutLine =>
      var BeforeLine(to, line) := s.reader;
      if to == fd { AccountLine(s, fd, line); } else { AccountFrame(s, TryLine(s, to, line), fd); }
    case PutStop => AccountFrame(s, TryStop(s), fd);
    case Take => AccountFrame(s, TakeFirst(s), fd);
    case Wrote(n) => AccountFrame(s, WriteSome(s, s.writer.fd, s.writer.remaining, n), fd);
    case Retry =>
    case Fail => AccountFrame(s, Next(s, a), fd);
  }

  lemma InvStep(s: State, a: Action)
    requires Inv(s)
    ensures Inv(Next(s, a))
  {
    OrderedStep(s, a);
    if Enabled(s, a) {
      forall fd: Fd
        ensures Filed(Next(s, a), fd) && Delivers(Next(s, a), fd) && Balances(Next(s, a), fd) && InOrder(Next(s, a), fd)
      {
        FiledStep(s, a, fd);
        DeliversStep(s, a, fd);
        AccountStep(s, a, fd);
      }
    }
  }

  lemma {:induction false} InvRun(actions: seq<Action>)
    ensures Inv(Run(INIT, actions))
  {
    if actions != [] {
      InvRun(actions[..|actions| - 1]);
      InvStep(Run(INIT, actions[..|actions| - 1]), actions[|actions| - 1]);
    }
  }

  /** The safety of the pump in terms of what can be seen from outside, for every interleaving. */
  lemma EveryInterleaving(actions: seq<Action>, fd: Fd)
    ensures var s := Run(INIT, actions);
            // a descriptor only ever receives what was queued for it, in that order
            && s.sink.At(fd) <= Payloads(s.queued.At(fd), fd)
            // an orderly end delivers everything to a descriptor that never failed
            && (s.writer.Stopped? && fd !in s.disabled ==> s.sink.At(fd) == Payloads(s.queued.At(fd), fd))
            // between two calls of `_emit`, each line lost is counted exactly once
            && (s.reader.Ready? || s.reader.Closed? ==>
                  && |Texts(s.queued.At(fd))| + Carried(s.queued.At(fd)) + s.dropped.At(fd) == |s.offered.At(fd)|
                  && Subsequence(AsEvents(Texts(s.queued.At(fd))), s.offered.At(fd)))
            && |s.queue| <= MAX_QUEUED_LINES
  {
    InvRun(actions);
    var s := Run(INIT, actions);
    assert Delivers(s, fd) && Balances(s, fd) && InOrder(s, fd);
    assert Texts(s.queued.At(fd)) + [] == Texts(s.queued.At(fd));
  }
}
