/** What the log filter must make of one pipe's byte stream, independent of how it is read. */
module LogLines {
  import opened Bytes

  const MAX_LINE_SIZE := 65536

  /** What happens to one line: it is handed on whole, or it counts as one drop. */
  datatype Event = Line(text: bytes) | Drop

  function Classify(line: bytes): Event {
    if |line| > MAX_LINE_SIZE then Drop else Line(line)
  }

  function Classified(lines: seq<bytes>): seq<Event> {
    if lines == [] then [] else [Classify(lines[0])] + Classified(lines[1..])
  }

  /** The stream cut after every newline; a final unterminated piece is a line too. */
  function Lines(s: bytes): seq<bytes> {
    var n := Find(s, NEWLINE);
    if s == [] then []
    else if n < 0 then [s]
    else [s[..n + 1]] + Lines(s[n + 1..])
  }

  /** The events of a stream that has ended. */
  function Events(s: bytes): seq<Event> {
    Classified(Lines(s))
  }

  /** One event for each line: the line itself, up to a length of 65536 bytes, or a drop. */
  lemma {:induction false} EventsExactly(s: bytes, i: nat)
    requires i < |Lines(s)|
    ensures |Events(s)| == |Lines(s)|
    ensures Events(s)[i] == if |Lines(s)[i]| <= 65536 then Line(Lines(s)[i]) else Drop
  {
    ClassifiedAt(Lines(s), i);
  }

  lemma {:induction false} ClassifiedAt(lines: seq<bytes>, i: nat)
    requires i < |lines|
    ensures |Classified(lines)| == |lines|
    ensures Classified(lines)[i] == if |lines[i]| <= 65536 then Line(lines[i]) else Drop
  {
    if i > 0 {
      ClassifiedAt(lines[1..], i - 1);
    } else if |lines| > 1 {
      ClassifiedAt(lines[1..], 0);
    }
  }

  predicate Terminated(line: bytes) {
    line != [] && line[|line| - 1] == NEWLINE && NEWLINE !in line[..|line| - 1]
  }

  predicate Unterminated(line: bytes) {
    line != [] && NEWLINE !in line
  }

  /** `lines` is the stream `s` cut exactly after its newlines. */
  ghost predicate Splits(lines: seq<bytes>, s: bytes) {
    && Flatten(lines) == s
    && (forall i :: 0 <= i < |lines| ==> Terminated(lines[i]) || (i == |lines| - 1 && Unterminated(lines[i])))
  }

  lemma SplitCons(first: bytes, lines: seq<bytes>, rest: bytes)
    requires Terminated(first) && Splits(lines, rest)
    ensures Splits([first] + lines, first + rest)
  {
    assert ([first] + lines)[1..] == lines;
  }

  lemma SplitOne(s: bytes)
    requires Unterminated(s)
    ensures Splits([s], s)
  {
    assert [s][1..] == [] && s + [] == s;
  }

  lemma FirstLine(s: bytes, n: nat)
    requires n < |s| && s[n] == NEWLINE && NEWLINE !in s[..n]
    ensures Terminated(s[..n + 1]) && s == s[..n + 1] + s[n + 1..]
  {
    assert s[..n + 1][..n] == s[..n];
  }

  lemma {:induction false} LinesSplit(s: bytes)
    ensures Splits(Lines(s), s)
    decreases |s|
  {
    var n := Find(s, NEWLINE);
    if n >= 0 {
      FirstLine(s, n);
      LinesSplit(s[n + 1..]);
      SplitCons(s[..n + 1], Lines(s[n + 1..]), s[n + 1..]);
    } else if s != [] {
      SplitOne(s);
    }
  }

  /** By the numbers: each line but the last ends in 0x0a, and no line has one before its end. */
  lemma LinesByNumbers(s: bytes, i: nat)
    requires i < |Lines(s)|
    ensures var line := Lines(s)[i];
            && line != [] && (forall j :: 0 <= j < |line| - 1 ==> line[j] != 0x0a)
            && (i < |Lines(s)| - 1 ==> line[|line| - 1] == 0x0a)
  {
    LinesSplit(s);
    var line := Lines(s)[i];
    assert Terminated(line) || Unterminated(line);
    forall j | 0 <= j < |line| - 1
      ensures line[j] != 0x0a
    {
      assert line[..|line| - 1][j] == line[j];
    }
  }

  /** There is only one such cut, so `Splits` says all there is to say about `Lines`. */
  lemma {:induction false} SplitIsUnique(lines: seq<bytes>, s: bytes)
    requires Splits(lines, s)
    ensures lines == Lines(s)
    decreases |lines|
  {
    if lines != [] {
      var first, rest := lines[0], lines[1..];
      assert s == first + Flatten(rest);
      if Terminated(first) {
        var n := |first| - 1;
        assert s[..n] == first[..n];
        FindIs(s, NEWLINE, n);
        assert s[..n + 1] == first && s[n + 1..] == Flatten(rest);
        SplitIsUnique(rest, Flatten(rest));
      } else {
        assert rest == [];
        assert s == first;
      }
    }
  }

  /** Events of the lines already terminated in a stream that may go on. */
  function Settled(s: bytes): seq<Event> {
    var n := Find(s, NEWLINE);
    if n < 0 then [] else [Classify(s[..n + 1])] + Settled(s[n + 1..])
  }

  /** The bytes after the last newline. */
  function Tail(s: bytes): bytes {
    var n := Find(s, NEWLINE);
    if n < 0 then s else Tail(s[n + 1..])
  }

  /** An open tail counts as dropped as soon as it has outgrown the limit, and only then. */
  function EmittedSoFar(s: bytes): seq<Event> {
    Settled(s) + if |Tail(s)| > MAX_LINE_SIZE then [Drop] else []
  }

  lemma {:induction false} EventsOfTail(s: bytes)
    ensures Events(s) == Settled(s) + if Tail(s) == [] then [] else [Classify(Tail(s))]
    decreases |s|
  {
    var n := Find(s, NEWLINE);
    if n < 0 {
      if s != [] {
        assert Classified(Lines(s)) == [Classify(s)] + Classified([]);
      }
    } else {
      var first, rest := s[..n + 1], s[n + 1..];
      EventsOfTail(rest);
      assert Lines(s)[1..] == Lines(rest);
      assert Events(s) == [Classify(first)] + Events(rest);
      Assoc([Classify(first)], Settled(rest), if Tail(rest) == [] then [] else [Classify(Tail(rest))]);
    }
  }

  lemma FindInPrefix(s: bytes, u: bytes)
    requires NEWLINE in s
    ensures var n := Find(s, NEWLINE);
            n >= 0 && Find(s + u, NEWLINE) == n && (s + u)[..n + 1] == s[..n + 1] && (s + u)[n + 1..] == s[n + 1..] + u
  {
    var n := Find(s, NEWLINE);
    assert (s + u)[..n] == s[..n];
    FindIs(s + u, NEWLINE, n);
  }

  /** More bytes without a newline only lengthen the tail. */
  lemma {:induction false} ExtendOpen(s: bytes, u: bytes)
    requires NEWLINE !in u
    ensures Settled(s + u) == Settled(s) && Tail(s + u) == Tail(s) + u
    decreases |s|
  {
    var n := Find(s, NEWLINE);
    if n >= 0 {
      FindInPrefix(s, u);
      ExtendOpen(s[n + 1..], u);
    }
  }

  /** Bytes up to and including a newline settle the tail. */
  lemma {:induction false} ExtendSettled(s: bytes, u: bytes)
    requires Terminated(u)
    ensures Settled(s + u) == Settled(s) + [Classify(Tail(s) + u)] && Tail(s + u) == []
    decreases |s|
  {
    var n := Find(s, NEWLINE);
    if n >= 0 {
      FindInPrefix(s, u);
      var rest := s[n + 1..];
      ExtendSettled(rest, u);
      Assoc([Classify(s[..n + 1])], Settled(rest), [Classify(Tail(rest) + u)]);
    } else {
      SettleFirst(s, u);
    }
  }

  lemma SettleFirst(s: bytes, u: bytes)
    requires NEWLINE !in s && Terminated(u)
    ensures Settled(s + u) == [Classify(s + u)] && Tail(s + u) == []
  {
    var k := |s| + |u| - 1;
    assert (s + u)[..k] == s + u[..|u| - 1];
    FindIs(s + u, NEWLINE, k);
    assert (s + u)[..k + 1] == s + u;
    assert (s + u)[k + 1..] == [];
    assert Find<byte>([], NEWLINE) == -1;
  }
}
