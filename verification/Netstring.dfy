/** Netstrings as the Postfix socketmap connection reassembles and sends them. */
module Netstring {
  import opened Bytes
  import opened Options
  import opened Decimal

  const BASE_BUFFER := 1024
  const MAX_BUFFER := 65535
  const COLON: byte := 0x3a
  const COMMA: byte := 0x2c

  /** A connection between two calls of `data_received`: the length once it is known, the position of the
      separator, and the bytes buffered so far. */
  datatype Fields = Fields(len: Option<nat>, separator: int, received: bytes) {
    predicate Valid() {
      |received| <= BASE_BUFFER && -1 <= separator < |received| && (len.Some? ==> 0 <= separator)
    }
  }

  const INIT := Fields(None, -1, [])

  type Decoder = d: Fields | d.Valid() witness INIT

  /** `data_received` returns, hands a payload to `string_received`, or raises one of two errors:
      the buffer may not grow past its maximum, and it cannot grow at all (`bytearray.append` takes
      one integer, not a `bytearray`). */
  datatype Outcome = Quiet | Received(payload: bytes) | NotEnoughSpace | CannotGrow

  function WithLength(d: Decoder): Decoder {
    if d.len.Some? then d
    else
      var separator := Find(d.received, COLON);
      d.(separator := separator,
         len := if separator != -1 && IsNumeral(d.received[..separator])
                then Some(Value(d.received[..separator])) else None)
  }

  function Settle(d: Decoder): (Decoder, Outcome) {
    var n := |d.received|;
    if d.len.Some? && n - d.separator == d.len.value + 2
    then (INIT, Received(d.received[d.separator + 1..n - 1])) else (d, Quiet)
  }

  function Receive(d: Decoder, data: bytes): (Decoder, Outcome) {
    var wanted := |d.received| + |data|;
    if wanted > BASE_BUFFER then (d, if wanted > MAX_BUFFER then NotEnoughSpace else CannotGrow)
    else Settle(WithLength(d.(received := d.received + data)))
  }

  /** A frame on the wire. */
  datatype Frame = Frame(header: bytes, payload: bytes) {
    function Wire(): bytes {
      header + [COLON] + payload + [COMMA]
    }

    /** The header is the payload's length in digits. */
    predicate Correct() {
      IsNumeral(header) && Value(header) == |payload|
    }

    /** The whole frame fits the base buffer, too. */
    predicate Fits() {
      Correct() && |Wire()| <= BASE_BUFFER
    }
  }

  /** What `send_string` sends. */
  function Sent(payload: bytes): Frame {
    Frame(Print(|payload|), payload)
  }

  lemma SentFits(payload: bytes)
    requires |Sent(payload).Wire()| <= BASE_BUFFER
    ensures Sent(payload).Fits()
  {
    ValueOfPrint(|payload|);
  }

  lemma WireParts(f: Frame)
    ensures f.Wire()[..|f.header|] == f.header
    ensures f.Wire()[|f.header| + 1..|f.Wire()| - 1] == f.payload
  {
    var k, head := |f.header|, f.header + [COLON];
    assert f.Wire() == head + f.payload + [COMMA];
    assert (head + f.payload)[|head|..] == f.payload;
  }

  // ---- a frame arriving in pieces ----

  /** The connection after the first `n` bytes of a frame. */
  function Mid(f: Frame, n: nat): Decoder
    requires f.Correct() && n < |f.Wire()| && n <= BASE_BUFFER
  {
    var k := |f.header|;
    if n <= k then Fields(None, -1, f.Wire()[..n]) else Fields(Some(|f.payload|), k, f.Wire()[..n])
  }

  /** The separator is found once it is there, whatever has come after it. */
  lemma ColonAt(f: Frame, n: nat, more: bytes)
    requires IsNumeral(f.header) && n <= |f.Wire()| && (n <= |f.header| ==> more == [])
    ensures var b := f.Wire()[..n] + more;
            if n <= |f.header| then Find(b, COLON) == -1
            else Find(b, COLON) == |f.header| && b[..|f.header|] == f.header
  {
    var k := |f.header|;
    var b := f.Wire()[..n] + more;
    assert forall i :: 0 <= i < k ==> f.Wire()[i] == f.header[i] && IsDigit(f.header[i]);
    if n <= k {
      assert COLON !in b;
    } else {
      assert b[..k] == f.header;
      FindIs(b, COLON, k);
    }
  }

  lemma LengthOfPiece(f: Frame, n: nat, m: nat)
    requires f.Correct() && n < |f.Wire()| && n <= m <= |f.Wire()| && m <= BASE_BUFFER
    ensures var k := |f.header|;
            WithLength(Mid(f, n).(received := f.Wire()[..m]))
            == if m <= k then Fields(None, -1, f.Wire()[..m]) else Fields(Some(|f.payload|), k, f.Wire()[..m])
  {
    ColonAt(f, m, []);
    assert f.Wire()[..m] + [] == f.Wire()[..m];
  }

  /** More bytes of the frame arrive: nothing happens until the last one, which delivers the payload. */
  lemma ReceivePiece(f: Frame, n: nat, m: nat)
    requires f.Correct() && n < |f.Wire()| && n <= m <= |f.Wire()| && m <= BASE_BUFFER
    ensures Receive(Mid(f, n), f.Wire()[n..m]) ==
            if m < |f.Wire()| then (Mid(f, m), Quiet) else (INIT, Received(f.payload))
  {
    var wire := f.Wire();
    assert wire[..n] + wire[n..m] == wire[..m];
    LengthOfPiece(f, n, m);
    if m == |wire| {
      WireParts(f);
      assert wire[..m] == wire;
    }
  }

  lemma MidZero(f: Frame)
    requires f.Correct()
    ensures Mid(f, 0) == INIT && f.Wire()[0..] == f.Wire()
  {
  }

  // ---- whole conversations ----

  function Handed(outcome: Outcome): seq<bytes> {
    if outcome.Received? then [outcome.payload] else []
  }

  predicate Raises(outcome: Outcome) {
    outcome.NotEnoughSpace? || outcome.CannotGrow?
  }

  /** A connection after a number of chunks: what `string_received` got, and whether an exception has
      closed it. */
  datatype Session = Session(decoder: Decoder, payloads: seq<bytes>, closed: bool)

  type Step = (Decoder, bytes) -> (Decoder, Outcome)

  /** A connection that handles each chunk with `step`, which is `Receive`. */
  function Run(step: Step, d: Decoder, chunks: seq<bytes>): Session
    decreases |chunks|
  {
    if chunks == [] then Session(d, [], false)
    else
      var (e, outcome) := step(d, chunks[0]);
      if Raises(outcome) then Session(e, [], true)
      else
        var rest := Run(step, e, chunks[1..]);
        rest.(payloads := Handed(outcome) + rest.payloads)
  }

  lemma {:induction false} RunAppend(step: Step, d: Decoder, a: seq<bytes>, b: seq<bytes>)
    requires !Run(step, d, a).closed
    ensures Run(step, d, a + b)
         == var rest := Run(step, Run(step, d, a).decoder, b);
            rest.(payloads := Run(step, d, a).payloads + rest.payloads)
    decreases |a|
  {
    if a == [] {
      assert a + b == b;
    } else {
      assert (a + b)[0] == a[0] && (a + b)[1..] == a[1..] + b;
      var (e, first) := step(d, a[0]);
      RunAppend(step, e, a[1..], b);
      Assoc(Handed(first), Run(step, e, a[1..]).payloads, Run(step, Run(step, d, a).decoder, b).payloads);
    }
  }

  predicate Nonempty(chunks: seq<bytes>) {
    forall i :: 0 <= i < |chunks| ==> chunks[i] != []
  }

  /** The end of the frame has been passed within a chunk. */
  ghost predicate Overshot(d: Decoder) {
    d.len.Some? && |d.received| - d.separator > d.len.value + 2
  }

  /** Such a connection delivers nothing any more, whatever arrives. */
  lemma {:induction false} OvershotIsDeaf(d: Decoder, chunks: seq<bytes>)
    requires Overshot(d)
    ensures Run(Receive, d, chunks).payloads == []
    decreases |chunks|
  {
    if chunks != [] {
      OvershotIsDeaf(Receive(d, chunks[0]).0, chunks[1..]);
    }
  }

  lemma ReceivePastEnd(f: Frame, n: nat, data: bytes)
    requires f.Correct() && n < |f.Wire()| < n + |data| <= BASE_BUFFER && f.Wire()[n..] <= data
    ensures Receive(Mid(f, n), data).1 == Quiet && Overshot(Receive(Mid(f, n), data).0)
  {
    var wire := f.Wire();
    var more := data[|wire| - n..];
    assert wire[..n] + data == wire[..|wire|] + more;
    ColonAt(f, |wire|, more);
  }

  /** The chunks have a boundary after `n` bytes. */
  predicate CutAt(chunks: seq<bytes>, n: nat) {
    n == 0 || (chunks != [] && |chunks[0]| <= n && CutAt(chunks[1..], n - |chunks[0]|))
  }

  /** The next chunk is a piece of the frame, or has the rest of it and more. */
  predicate IsNext(wire: bytes, n: nat, chunk: bytes)
    requires n < |wire|
  {
    if n + |chunk| <= |wire| then chunk == wire[n..n + |chunk|] else wire[n..] <= chunk
  }

  lemma NextPiece(wire: bytes, n: nat, chunks: seq<bytes>)
    requires n < |wire| && wire[n..] <= Flatten(chunks)
    ensures chunks != [] && IsNext(wire, n, chunks[0])
    ensures n + |chunks[0]| <= |wire| ==> wire[n + |chunks[0]|..] <= Flatten(chunks[1..])
  {
    assert wire[n..] != [];
    var all, rest, m := Flatten(chunks), Flatten(chunks[1..]), n + |chunks[0]|;
    assert all == chunks[0] + rest;
    assert wire[n..] == all[..|wire| - n];
    if m <= |wire| {
      assert chunks[0] == all[..|chunks[0]|] == wire[n..m];
      assert wire[m..] == wire[n..][|chunks[0]|..] == rest[..|wire| - m];
    } else {
      assert wire[n..] == chunks[0][..|wire| - n];
    }
  }

  /** What the call that gets the next chunk does. */
  lemma ReceiveNext(f: Frame, n: nat, chunk: bytes)
    requires f.Correct() && n < |f.Wire()| && n <= BASE_BUFFER && IsNext(f.Wire(), n, chunk)
    ensures var (d, outcome) := Receive(Mid(f, n), chunk);
            var m := n + |chunk|;
            if m > BASE_BUFFER then Raises(outcome)
            else if m < |f.Wire()| then d == Mid(f, m) && outcome == Quiet
            else if m == |f.Wire()| then d == INIT && outcome == Received(f.payload)
            else Overshot(d) && outcome == Quiet
  {
    var m := n + |chunk|;
    if m <= BASE_BUFFER {
      if m <= |f.Wire()| {
        ReceivePiece(f, n, m);
      } else {
        ReceivePastEnd(f, n, chunk);
      }
    }
  }

  /** How a connection reads one frame: `mid(n)` is its state after `n` bytes. */
  ghost predicate Reads(step: Step, mid: nat -> Decoder, wire: bytes, payload: bytes) {
    forall n: nat, chunk :: n < |wire| && n <= BASE_BUFFER && IsNext(wire, n, chunk) ==>
      NextIs(step, mid, wire, payload, n, chunk)
  }

  ghost predicate NextIs(step: Step, mid: nat -> Decoder, wire: bytes, payload: bytes, n: nat, chunk: bytes) {
    var (d, outcome) := step(mid(n), chunk);
    var m := n + |chunk|;
    if m > BASE_BUFFER then Raises(outcome)
    else if m < |wire| then d == mid(m) && outcome == Quiet
    else if m == |wire| then d == INIT && outcome == Received(payload)
    else Deaf(step, d) && outcome == Quiet
  }

  ghost predicate Deaf(step: Step, d: Decoder) {
    forall chunks :: Run(step, d, chunks).payloads == []
  }

  function MidOf(f: Frame): nat -> Decoder
    requires f.Correct()
  {
    (n: nat) => if n < |f.Wire()| && n <= BASE_BUFFER then Mid(f, n) else INIT
  }

  lemma ReceiveReads(f: Frame)
    requires f.Correct()
    ensures Reads(Receive, MidOf(f), f.Wire(), f.payload)
  {
    forall n: nat, chunk | n < |f.Wire()| && n <= BASE_BUFFER && IsNext(f.Wire(), n, chunk)
      ensures NextIs(Receive, MidOf(f), f.Wire(), f.payload, n, chunk)
    {
      ReceiveNext(f, n, chunk);
      var d := Receive(Mid(f, n), chunk).0;
      forall chunks | Overshot(d)
        ensures Run(Receive, d, chunks).payloads == []
      {
        OvershotIsDeaf(d, chunks);
      }
    }
  }

  /** What one more chunk makes of the rest of a frame. */
  lemma RunNext(step: Step, mid: nat -> Decoder, wire: bytes, payload: bytes, n: nat, chunks: seq<bytes>)
    requires Reads(step, mid, wire, payload)
    requires n < |wire| && n <= BASE_BUFFER && chunks != [] && IsNext(wire, n, chunks[0])
    ensures var m, session := n + |chunks[0]|, Run(step, mid(n), chunks);
            if m > BASE_BUFFER || m > |wire| then session.payloads == []
            else if m < |wire| then session == Run(step, mid(m), chunks[1..])
            else
              var rest := Run(step, INIT, chunks[1..]);
              session == rest.(payloads := [payload] + rest.payloads)
  {
    assert NextIs(step, mid, wire, payload, n, chunks[0]);
    var rest := Run(step, step(mid(n), chunks[0]).0, chunks[1..]);
    assert [] + rest.payloads == rest.payloads;
  }

  lemma {:induction false} RestDelivered(step: Step, mid: nat -> Decoder, wire: bytes, payload: bytes, n: nat,
                                         d: Decoder, left: nat, chunks: seq<bytes>)
    requires Reads(step, mid, wire, payload)
    requires n < |wire| && n <= BASE_BUFFER && wire[n..] <= Flatten(chunks) && d == mid(n) && left == |wire| - n
    ensures var payloads := Run(step, d, chunks).payloads;
            if CutAt(chunks, left) && |wire| <= BASE_BUFFER then payloads != [] && payloads[0] == payload
            else payloads == []
    decreases |chunks|
  {
    NextPiece(wire, n, chunks);
    RunNext(step, mid, wire, payload, n, chunks);
    CutAtNext(wire, n, chunks);
    var m := n + |chunks[0]|;
    if m <= BASE_BUFFER && m < |wire| {
      RestDelivered(step, mid, wire, payload, m, mid(m), |wire| - m, chunks[1..]);
    }
  }

  lemma CutAtNext(wire: bytes, n: nat, chunks: seq<bytes>)
    requires n < |wire| && chunks != []
    ensures var m := n + |chunks[0]|;
            CutAt(chunks, |wire| - n) == (m <= |wire| && CutAt(chunks[1..], |wire| - m))
  {
  }

  /** A frame with anything behind it is delivered exactly when it fits the base buffer and some chunk
      ends where the frame ends; otherwise nothing is ever delivered. */
  lemma DeliveredExactlyWhenCut(f: Frame, chunks: seq<bytes>)
    requires f.Correct() && f.Wire() <= Flatten(chunks)
    ensures var payloads := Run(Receive, INIT, chunks).payloads;
            && (CutAt(chunks, |f.Wire()|) && f.Fits() <==> payloads != [])
            && (payloads != [] ==> payloads[0] == f.payload)
  {
    ReceiveReads(f);
    MidZero(f);
    var wire := f.Wire();
    assert wire[0..] == wire;
    RestDelivered(Receive, MidOf(f), wire, f.payload, 0, INIT, |wire|, chunks);
  }

  lemma NothingLeft(chunks: seq<bytes>)
    requires Nonempty(chunks)
    ensures Flatten(chunks) == [] ==> chunks == []
  {
    if chunks != [] {
      assert Flatten(chunks) == chunks[0] + Flatten(chunks[1..]);
    }
  }

  lemma {:induction false} RestIsRead(step: Step, mid: nat -> Decoder, wire: bytes, payload: bytes, n: nat,
                                      chunks: seq<bytes>)
    requires Reads(step, mid, wire, payload) && |wire| <= BASE_BUFFER
    requires n < |wire| && Nonempty(chunks) && Flatten(chunks) == wire[n..]
    ensures chunks != [] && Run(step, mid(n), chunks) == Session(INIT, [payload], false)
    ensures Run(step, mid(n), chunks[..|chunks| - 1]).payloads == []
    decreases |chunks|
  {
    NextPiece(wire, n, chunks);
    RunNext(step, mid, wire, payload, n, chunks);
    var m, rest := n + |chunks[0]|, chunks[1..];
    assert Flatten(chunks) == chunks[0] + Flatten(rest);
    if m < |wire| {
      assert Flatten(rest) == wire[m..];
      RestIsRead(step, mid, wire, payload, m, rest);
      var front := chunks[..|chunks| - 1];
      assert front[0] == chunks[0] && front[1..] == rest[..|rest| - 1];
      RunNext(step, mid, wire, payload, n, front);
    } else {
      NothingLeft(rest);
      assert [payload] + [] == [payload];
    }
  }

  /** However a frame is cut, its payload is delivered once, not before the last chunk, and the
      connection is ready for the next frame. */
  lemma OneFrame(f: Frame, chunks: seq<bytes>)
    requires f.Fits() && Nonempty(chunks) && Flatten(chunks) == f.Wire()
    ensures chunks != [] && Run(Receive, INIT, chunks) == Session(INIT, [f.payload], false)
    ensures Run(Receive, INIT, chunks[..|chunks| - 1]).payloads == []
  {
    ReceiveReads(f);
    MidZero(f);
    RestIsRead(Receive, MidOf(f), f.Wire(), f.payload, 0, chunks);
  }

  /** A call raises exactly when the bytes in hand and the new ones are more than 1024 together, with the
      one error or the other; nothing is kept of the new ones then. */
  lemma RaisesExactlyWhen(d: Decoder, data: bytes)
    ensures var (e, outcome) := Receive(d, data);
            && (Raises(outcome) <==> |d.received| + |data| > 1024)
            && (outcome == NotEnoughSpace <==> |d.received| + |data| > 65535)
            && (Raises(outcome) ==> e == d)
  {
  }

  /** What goes over the wire: the length in decimal, a colon, the payload and a comma. */
  lemma SentIs(payload: bytes)
    ensures Sent(payload).Wire() == Print(|payload|) + [0x3a] + payload + [0x2c]
  {
  }

  /** A frame can be delivered by some cut exactly when it has no more than 1024 bytes, and then every cut
      into chunks that are not empty delivers it. */
  lemma DeliverableExactlyWhenFits(f: Frame)
    requires f.Correct()
    ensures |f.Wire()| <= 1024 <==>
              (exists chunks :: Flatten(chunks) == f.Wire() && f.payload in Run(Receive, INIT, chunks).payloads)
    ensures |f.Wire()| <= 1024 <==> forall chunks :: Nonempty(chunks) && Flatten(chunks) == f.Wire() ==>
                            Run(Receive, INIT, chunks).payloads == [f.payload]
  {
    var whole := [f.Wire()];
    assert whole[1..] == [] && Flatten(whole) == f.Wire();
    DeliveredExactlyWhenCut(f, whole);
    forall chunks | Flatten(chunks) == f.Wire() && f.payload in Run(Receive, INIT, chunks).payloads
      ensures f.Fits()
    {
      DeliveredExactlyWhenCut(f, chunks);
    }
    forall chunks | f.Fits() && Nonempty(chunks) && Flatten(chunks) == f.Wire()
      ensures Run(Receive, INIT, chunks).payloads == [f.payload]
    {
      OneFrame(f, chunks);
    }
    if f.Fits() {
      OneFrame(f, whole);
    }
  }

  /** `cuts[i]` are the chunks in which frame `i` arrives. */
  ghost predicate CutsOf(cuts: seq<seq<bytes>>, frames: seq<Frame>) {
    && |cuts| == |frames|
    && forall i :: 0 <= i < |cuts| ==> frames[i].Fits() && Nonempty(cuts[i]) && Flatten(cuts[i]) == frames[i].Wire()
  }

  function PayloadsOf(frames: seq<Frame>): seq<bytes> {
    if frames == [] then [] else [frames[0].payload] + PayloadsOf(frames[1..])
  }

  /** Frames whose ends fall on chunk ends decode to the sequence of their payloads, without error. */
  lemma {:induction false} Conversation(cuts: seq<seq<bytes>>, frames: seq<Frame>)
    requires CutsOf(cuts, frames)
    ensures Run(Receive, INIT, Flatten(cuts)) == Session(INIT, PayloadsOf(frames), false)
  {
    if cuts != [] {
      var rest := Flatten(cuts[1..]);
      Conversation(cuts[1..], frames[1..]);
      OneFrame(frames[0], cuts[0]);
      RunAppend(Receive, INIT, cuts[0], rest);
    }
  }

  /** Frames are self-delimiting: a stream of them can be read back in only one way. */
  lemma FramesAreSelfDelimiting(p: Frame, q: Frame, a: bytes, b: bytes)
    requires p.Fits() && q.Fits() && p.Wire() + a == q.Wire() + b
    ensures p == q && a == b
  {
    var s := p.Wire() + a;
    assert s == p.Wire()[..|p.Wire()|] + a == q.Wire()[..|q.Wire()|] + b;
    ColonAt(p, |p.Wire()|, a);
    ColonAt(q, |q.Wire()|, b);
    assert |p.Wire()| == |q.Wire()|;
    assert p.Wire() == s[..|p.Wire()|] == q.Wire();
    WireParts(p);
    WireParts(q);
    assert a == s[|p.Wire()|..] == b;
  }

  // ---- the connection ----

  lemma FindInFilled(buffer: bytes, n: nat)
    requires n <= |buffer| && forall i :: n <= i < |buffer| ==> buffer[i] == 0
    ensures Find(buffer, COLON) == Find(buffer[..n], COLON)
  {
    var r := Find(buffer[..n], COLON);
    if r >= 0 {
      assert buffer[..r] == buffer[..n][..r];
      FindIs(buffer, COLON, r);
    } else {
      assert forall i :: 0 <= i < n ==> buffer[i] == buffer[..n][i];
    }
  }

  class Protocol {
    var len: Option<nat>
    var separator: int
    var index: nat
    var buffer: array<byte>
    /** What went to `string_received`, and what went to the transport. */
    ghost var delivered: seq<bytes>
    ghost var written: bytes

    /** The buffer is filled from the front and never grows; the rest of it is still blank. */
    ghost predicate Valid()
      reads this, buffer
    {
      && buffer.Length == BASE_BUFFER && index <= BASE_BUFFER
      && (forall i :: index <= i < BASE_BUFFER ==> buffer[i] == 0)
      && State().Valid()
    }

    ghost function State(): Fields
      requires index <= buffer.Length
      reads this, buffer
    {
      Fields(len, separator, buffer[..index])
    }

    constructor ()
      ensures Valid() && fresh(buffer) && State() == INIT && delivered == [] && written == []
    {
      len, separator, index := None, -1, 0;
      buffer := new byte[BASE_BUFFER](_ => 0);
      delivered, written := [], [];
    }

    method InitBuffer()
      modifies this
      ensures Valid() && fresh(buffer) && State() == INIT && delivered == old(delivered) && written == old(written)
    {
      len, separator, index := None, -1, 0;
      buffer := new byte[BASE_BUFFER](_ => 0);
    }

    method DataReceived(data: bytes) returns (outcome: Outcome)
      requires Valid()
      modifies this, buffer
      ensures Valid() && (buffer == old(buffer) || fresh(buffer))
      ensures (State(), outcome) == Receive(old(State()), data)
      ensures delivered == old(delivered) + Handed(outcome) && written == old(written)
    {
      var missing := |data| - buffer.Length + index;
      if missing > 0 {
        if buffer.Length + missing > MAX_BUFFER {
          return NotEnoughSpace;
        }
        return CannotGrow;
      }
      Store(data);
      DetectLength();
      outcome := Deliver();
    }

    /** The slice assignment into the buffer. */
    method Store(data: bytes)
      requires Valid() && index + |data| <= BASE_BUFFER
      modifies `index, buffer
      ensures Valid() && State() == old(State()).(received := old(State()).received + data)
    {
      forall i | 0 <= i < |data| {
        buffer[index + i] := data[i];
      }
      index := index + |data|;
      assert buffer[..index] == old(buffer[..index]) + data;
    }

    /** The search goes over the whole buffer, the blank part of which has no separator. */
    method DetectLength()
      requires Valid()
      modifies `separator, `len
      ensures Valid() && State() == WithLength(old(State()))
    {
      if len.None? {
        FindInFilled(buffer[..], index);
        separator := Find(buffer[..], COLON);
        if separator != -1 {
          assert buffer[..separator] == buffer[..index][..separator];
          if IsNumeral(buffer[..separator]) {
            len := Some(Value(buffer[..separator]));
          }
        }
      }
    }

    method Deliver() returns (outcome: Outcome)
      requires Valid()
      modifies this
      ensures Valid() && (buffer == old(buffer) || fresh(buffer))
      ensures (State(), outcome) == Settle(old(State()))
      ensures delivered == old(delivered) + Handed(outcome) && written == old(written)
    {
      if len.Some? && index - separator == len.value + 2 {
        var payload := buffer[separator + 1..index - 1];
        assert payload == State().received[separator + 1..index - 1];
        InitBuffer();
        delivered := delivered + [payload];
        return Received(payload);
      }
      return Quiet;
    }

    method SendString(s: bytes)
      modifies `written
      ensures written == old(written) + Sent(s).Wire()
    {
      written := written + Print(|s|);
      written := written + [COLON];
      written := written + s;
      written := written + [COMMA];
    }
  }
}
