/** Dovecot's tab escaping, done as five replacements over the whole string, and the reply lines of
    the dict protocol built on it. */
module TabEscape {
  import opened Bytes
  import LogLines

  const ONE: byte := 0x31
  const ZERO: byte := 0x30
  const LETTER_T: byte := 0x74
  const LETTER_N: byte := 0x6e
  const LETTER_R: byte := 0x72

  /** `s.replace(c, with)` for a one-byte `c`. */
  function ReplaceByte(s: bytes, c: byte, with: bytes): bytes {
    if s == [] then [] else (if s[0] == c then with else [s[0]]) + ReplaceByte(s[1..], c, with)
  }

  /** `s.replace(ab, [r])` for a two-byte `ab`: left to right, without overlap. */
  function ReplacePair(s: bytes, a: byte, b: byte, r: byte): bytes {
    if |s| < 2 then s
    else if s[0] == a && s[1] == b then [r] + ReplacePair(s[2..], a, b, r)
    else [s[0]] + ReplacePair(s[1..], a, b, r)
  }

  function TabEscape(s: bytes): bytes {
    var s := ReplaceByte(s, SOH, [SOH, ONE]);
    var s := ReplaceByte(s, NUL, [SOH, ZERO]);
    var s := ReplaceByte(s, TAB, [SOH, LETTER_T]);
    var s := ReplaceByte(s, NEWLINE, [SOH, LETTER_N]);
    ReplaceByte(s, RETURN, [SOH, LETTER_R])
  }

  function TabUnescape(s: bytes): bytes {
    var s := ReplacePair(s, SOH, LETTER_R, RETURN);
    var s := ReplacePair(s, SOH, LETTER_N, NEWLINE);
    var s := ReplacePair(s, SOH, LETTER_T, TAB);
    var s := ReplacePair(s, SOH, ZERO, NUL);
    ReplacePair(s, SOH, ONE, SOH)
  }

  // ---- the passes amount to one map per byte ----

  /** What one byte is escaped to. */
  function Escape(c: byte): bytes {
    if c == SOH then [SOH, ONE]
    else if c == NUL then [SOH, ZERO]
    else if c == TAB then [SOH, LETTER_T]
    else if c == NEWLINE then [SOH, LETTER_N]
    else if c == RETURN then [SOH, LETTER_R]
    else [c]
  }

  function Concat(piece: byte -> bytes, s: bytes): bytes {
    if s == [] then [] else piece(s[0]) + Concat(piece, s[1..])
  }

  lemma {:induction false} ReplaceByteAppend(a: bytes, b: bytes, c: byte, with: bytes)
    ensures ReplaceByte(a + b, c, with) == ReplaceByte(a, c, with) + ReplaceByte(b, c, with)
  {
    if a == [] {
      assert a + b == b;
    } else {
      assert (a + b)[1..] == a[1..] + b;
      ReplaceByteAppend(a[1..], b, c, with);
    }
  }

  lemma TabEscapeAppend(a: bytes, b: bytes)
    ensures TabEscape(a + b) == TabEscape(a) + TabEscape(b)
  {
    ReplaceByteAppend(a, b, SOH, [SOH, ONE]);
    var a1, b1 := ReplaceByte(a, SOH, [SOH, ONE]), ReplaceByte(b, SOH, [SOH, ONE]);
    ReplaceByteAppend(a1, b1, NUL, [SOH, ZERO]);
    var a2, b2 := ReplaceByte(a1, NUL, [SOH, ZERO]), ReplaceByte(b1, NUL, [SOH, ZERO]);
    ReplaceByteAppend(a2, b2, TAB, [SOH, LETTER_T]);
    var a3, b3 := ReplaceByte(a2, TAB, [SOH, LETTER_T]), ReplaceByte(b2, TAB, [SOH, LETTER_T]);
    ReplaceByteAppend(a3, b3, NEWLINE, [SOH, LETTER_N]);
    var a4, b4 := ReplaceByte(a3, NEWLINE, [SOH, LETTER_N]), ReplaceByte(b3, NEWLINE, [SOH, LETTER_N]);
    ReplaceByteAppend(a4, b4, RETURN, [SOH, LETTER_R]);
  }

  lemma ReplaceInOne(x: byte, c: byte, with: bytes)
    ensures ReplaceByte([x], c, with) == if x == c then with else [x]
  {
    assert [x][1..] == [];
  }

  lemma ReplaceInTwo(x: byte, y: byte, c: byte, with: bytes)
    requires x != c && y != c
    ensures ReplaceByte([x, y], c, with) == [x, y]
  {
    ReplaceByteAppend([x], [y], c, with);
    ReplaceInOne(x, c, with);
    ReplaceInOne(y, c, with);
    assert [x, y] == [x] + [y];
  }

  lemma TabEscapeOne(c: byte)
    ensures TabEscape([c]) == Escape(c)
  {
    ReplaceInOne(c, SOH, [SOH, ONE]);
    ReplaceInOne(c, NUL, [SOH, ZERO]);
    ReplaceInOne(c, TAB, [SOH, LETTER_T]);
    ReplaceInOne(c, NEWLINE, [SOH, LETTER_N]);
    ReplaceInOne(c, RETURN, [SOH, LETTER_R]);
    if c == SOH {
      ReplaceInTwo(SOH, ONE, NUL, [SOH, ZERO]);
      ReplaceInTwo(SOH, ONE, TAB, [SOH, LETTER_T]);
      ReplaceInTwo(SOH, ONE, NEWLINE, [SOH, LETTER_N]);
      ReplaceInTwo(SOH, ONE, RETURN, [SOH, LETTER_R]);
    } else if c == NUL {
      ReplaceInTwo(SOH, ZERO, TAB, [SOH, LETTER_T]);
      ReplaceInTwo(SOH, ZERO, NEWLINE, [SOH, LETTER_N]);
      ReplaceInTwo(SOH, ZERO, RETURN, [SOH, LETTER_R]);
    } else if c == TAB {
      ReplaceInTwo(SOH, LETTER_T, NEWLINE, [SOH, LETTER_N]);
      ReplaceInTwo(SOH, LETTER_T, RETURN, [SOH, LETTER_R]);
    } else if c == NEWLINE {
      ReplaceInTwo(SOH, LETTER_N, RETURN, [SOH, LETTER_R]);
    }
  }

  /** The five passes together are the map `Escape`. */
  lemma {:induction false} TabEscapeIsMap(s: bytes)
    ensures TabEscape(s) == Concat(Escape, s)
  {
    if s != [] {
      TabEscapeIsMap(s[1..]);
      TabEscapeAppend([s[0]], s[1..]);
      TabEscapeOne(s[0]);
      assert s == [s[0]] + s[1..];
    }
  }

  // ---- undoing it ----

  /** Each byte stands for itself or is an escape pair whose mark cannot open a pair. */
  ghost predicate Escaping(piece: byte -> bytes) {
    forall c :: (|piece(c)| == 1 && piece(c)[0] != SOH) || (|piece(c)| == 2 && piece(c)[0] == SOH && piece(c)[1] != SOH)
  }

  /** One pass turns exactly its own pairs back and leaves all others alone. */
  lemma {:induction false} ReplacePairIsMap(piece: byte -> bytes, after: byte -> bytes, s: bytes, mark: byte, r: byte)
    requires Escaping(piece) && mark != SOH
    requires forall c :: after(c) == if piece(c) == [SOH, mark] then [r] else piece(c)
    ensures ReplacePair(Concat(piece, s), SOH, mark, r) == Concat(after, s)
  {
    if s != [] {
      var p, rest := piece(s[0]), Concat(piece, s[1..]);
      ReplacePairIsMap(piece, after, s[1..], mark, r);
      assert after(s[0]) == if p == [SOH, mark] then [r] else p;
      PairOnPiece(p, rest, mark, r);
    }
  }

  lemma PairOnPiece(p: bytes, rest: bytes, mark: byte, r: byte)
    requires (|p| == 1 && p[0] != SOH) || (|p| == 2 && p[0] == SOH && p[1] != SOH)
    requires mark != SOH
    ensures ReplacePair(p + rest, SOH, mark, r) ==
            (if p == [SOH, mark] then [r] else p) + ReplacePair(rest, SOH, mark, r)
  {
    var s := p + rest;
    if |p| == 1 {
      assert s[1..] == rest && p == [s[0]];
      if rest == [] {
        assert s == p && p + [] == p;
      }
    } else if p == [SOH, mark] {
      assert s[2..] == rest;
    } else {
      var t := s[1..];
      assert t == [p[1]] + rest && t[1..] == rest && p == [SOH] + [p[1]];
      assert p == [SOH, mark] <==> p[1] == mark;
      if rest == [] {
        assert t + [] == t && s == [SOH] + t;
      }
      Assoc([SOH], [p[1]], ReplacePair(rest, SOH, mark, r));
    }
  }

  /** The mark pass `k` of `TabUnescape` looks for, and the byte it puts back. */
  function Mark(k: nat): byte {
    if k == 0 then LETTER_R else if k == 1 then LETTER_N else if k == 2 then LETTER_T else if k == 3 then ZERO else ONE
  }

  function Raw(k: nat): byte {
    if k == 0 then RETURN else if k == 1 then NEWLINE else if k == 2 then TAB else if k == 3 then NUL else SOH
  }

  /** The map after the first `k` passes. */
  function Undone(k: nat): byte -> bytes {
    c => if exists i :: 0 <= i < k && i < 5 && c == Raw(i) then [c] else Escape(c)
  }

  lemma UndoPass(k: nat, s: bytes)
    requires k < 5
    ensures ReplacePair(Concat(Undone(k), s), SOH, Mark(k), Raw(k)) == Concat(Undone(k + 1), s)
  {
    assert Escape(Raw(k)) == [SOH, Mark(k)];
    ReplacePairIsMap(Undone(k), Undone(k + 1), s, Mark(k), Raw(k));
  }

  lemma {:induction false} ConcatSame(p: byte -> bytes, q: byte -> bytes, s: bytes)
    requires forall c :: p(c) == q(c)
    ensures Concat(p, s) == Concat(q, s)
  {
    if s != [] {
      ConcatSame(p, q, s[1..]);
    }
  }

  lemma AllUndone(c: byte)
    ensures Undone(5)(c) == [c]
  {
    if c in {RETURN, NEWLINE, TAB, NUL, SOH} {
      assert c == Raw(0) || c == Raw(1) || c == Raw(2) || c == Raw(3) || c == Raw(4);
    }
  }

  lemma {:induction false} ConcatSingletons(s: bytes)
    ensures Concat(Undone(5), s) == s
  {
    if s != [] {
      ConcatSingletons(s[1..]);
      AllUndone(s[0]);
      assert s == [s[0]] + s[1..];
    }
  }

  /** The first `k` passes of `TabUnescape`. */
  function Passes(k: nat, s: bytes): bytes {
    if k == 0 then s else ReplacePair(Passes(k - 1, s), SOH, Mark(k - 1), Raw(k - 1))
  }

  lemma FivePasses(s: bytes)
    ensures TabUnescape(s) == Passes(5, s)
  {
    assert Passes(1, s) == ReplacePair(Passes(0, s), SOH, LETTER_R, RETURN);
    assert Passes(2, s) == ReplacePair(Passes(1, s), SOH, LETTER_N, NEWLINE);
    assert Passes(3, s) == ReplacePair(Passes(2, s), SOH, LETTER_T, TAB);
    assert Passes(4, s) == ReplacePair(Passes(3, s), SOH, ZERO, NUL);
  }

  lemma {:induction false} UndoAll(k: nat, s: bytes)
    requires k <= 5
    ensures Passes(k, Concat(Undone(0), s)) == Concat(Undone(k), s)
  {
    if k > 0 {
      UndoAll(k - 1, s);
      UndoPass(k - 1, s);
    }
  }

  lemma RoundTrip(s: bytes)
    ensures TabUnescape(TabEscape(s)) == s
  {
    TabEscapeIsMap(s);
    ConcatSame(Escape, Undone(0), s);
    FivePasses(Concat(Undone(0), s));
    UndoAll(5, s);
    ConcatSingletons(s);
  }

  /** Dovecot's five escapes, by their numbers: a 0x01 and one of the characters '1', '0', 't', 'n', 'r'. */
  lemma EscapesAre(c: byte)
    ensures TabEscape([0x01]) == [0x01, 0x31] && TabEscape([0x00]) == [0x01, 0x30]
    ensures TabEscape([0x09]) == [0x01, 0x74] && TabEscape([0x0a]) == [0x01, 0x6e] && TabEscape([0x0d]) == [0x01, 0x72]
    ensures c !in {0x00, 0x01, 0x09, 0x0a, 0x0d} ==> TabEscape([c]) == [c]
  {
    TabEscapeOne(0x00);
    TabEscapeOne(0x01);
    TabEscapeOne(0x09);
    TabEscapeOne(0x0a);
    TabEscapeOne(0x0d);
    TabEscapeOne(c);
  }

  /** Escaping is done byte by byte, so these say it all. */
  lemma EscapesApart(a: bytes, b: bytes)
    ensures TabEscape(a + b) == TabEscape(a) + TabEscape(b) && TabEscape([]) == []
  {
    TabEscapeAppend(a, b);
    TabEscapeIsMap([]);
  }

  lemma {:induction false} EscapedIsOneField(s: bytes)
    ensures forall i :: 0 <= i < |TabEscape(s)| ==> TabEscape(s)[i] !in {NUL, TAB, NEWLINE, RETURN}
  {
    TabEscapeIsMap(s);
    if s != [] {
      EscapedIsOneField(s[1..]);
      TabEscapeIsMap(s[1..]);
    }
  }

  // ---- reply lines ----

  function Join(fields: seq<bytes>): bytes {
    if fields == [] then [] else if |fields| == 1 then fields[0] else fields[0] + [TAB] + Join(fields[1..])
  }

  function Escapes(args: seq<bytes>): (r: seq<bytes>)
    ensures |r| == |args|
  {
    if args == [] then [] else [TabEscape(args[0])] + Escapes(args[1..])
  }

  /** `reply` */
  function Reply(command: byte, args: seq<bytes>): bytes {
    [command] + Join(Escapes(args)) + [NEWLINE]
  }

  function Split(line: bytes): seq<bytes> {
    var n := Find(line, TAB);
    if n < 0 then [line] else [line[..n]] + Split(line[n + 1..])
  }

  function Unescapes(fields: seq<bytes>): seq<bytes> {
    if fields == [] then [] else [TabUnescape(fields[0])] + Unescapes(fields[1..])
  }

  /** How the other side reads a reply line. */
  function Parse(line: bytes): (byte, seq<bytes>)
    requires |line| >= 2
  {
    (line[0], Unescapes(Split(line[1..|line| - 1])))
  }

  lemma {:induction false} UnescapesEscapes(args: seq<bytes>)
    ensures Unescapes(Escapes(args)) == args
  {
    if args != [] {
      UnescapesEscapes(args[1..]);
      RoundTrip(args[0]);
      assert Escapes(args)[1..] == Escapes(args[1..]);
      assert args == [args[0]] + args[1..];
    }
  }

  lemma {:induction false} SplitJoin(fields: seq<bytes>)
    requires fields != [] && forall i :: 0 <= i < |fields| ==> TAB !in fields[i] && NEWLINE !in fields[i]
    ensures Split(Join(fields)) == fields && NEWLINE !in Join(fields)
  {
    var first, rest := fields[0], fields[1..];
    if rest == [] {
      assert fields == [first];
    } else {
      SplitJoin(rest);
      var line := Join(fields);
      assert line[..|first|] == first && line[|first|] == TAB && line[|first| + 1..] == Join(rest);
      FindIs(line, TAB, |first|);
    }
  }

  lemma {:induction false} EscapesAreFields(args: seq<bytes>)
    ensures forall i :: 0 <= i < |args| ==> TAB !in Escapes(args)[i] && NEWLINE !in Escapes(args)[i]
  {
    if args != [] {
      EscapesAreFields(args[1..]);
      EscapedIsOneField(args[0]);
    }
  }

  lemma SplitJoinEscapes(args: seq<bytes>)
    requires args != []
    ensures Split(Join(Escapes(args))) == Escapes(args)
    ensures NEWLINE !in Join(Escapes(args))
  {
    EscapesAreFields(args);
    SplitJoin(Escapes(args));
  }

  /** A reply with at least one argument reads back as its command and arguments, and one without
      arguments does not: it reads back as one empty argument. */
  lemma ReplyReadsBack(command: byte, args: seq<bytes>)
    ensures Parse(Reply(command, args)) == (command, args) <==> args != []
    ensures args == [] ==> Parse(Reply(command, args)) == (command, [[]])
  {
    var line := Reply(command, args);
    assert line[1..|line| - 1] == Join(Escapes(args));
    if args == [] {
      var none: bytes := [];
      assert Join(Escapes(args)) == none;
      assert ReplacePair(none, SOH, LETTER_R, RETURN) == none;
      assert Find(none, TAB) == -1 && Split(none) == [none];
      assert TabUnescape(none) == none;
      assert line[1..|line| - 1] == none;
      assert Split(line[1..|line| - 1]) == [none];
      assert [none][1..] == [] && Unescapes([none][1..]) == [];
      assert Unescapes([none]) == [none];
      assert Parse(line) == (command, [none]);
    } else {
      SplitJoinEscapes(args);
      UnescapesEscapes(args);
    }
  }

  /** The bytes of a reply: the command, the escaped arguments with 0x09 between them, and 0x0a. */
  lemma ReplyIs(command: byte, a: bytes, b: bytes)
    ensures Reply(command, []) == [command, 0x0a]
    ensures Reply(command, [a]) == [command] + TabEscape(a) + [0x0a]
    ensures Reply(command, [a, b]) == [command] + TabEscape(a) + [0x09] + TabEscape(b) + [0x0a]
  {
    EscapesOfOne(a);
    EscapesOfOne(b);
    var none: seq<bytes> := [];
    assert Escapes(none) == [] && [command] + [] + [0x0a] == [command, 0x0a];
    assert [a, b][1..] == [b] && Escapes([a, b]) == [TabEscape(a)] + [TabEscape(b)];
    var both := [TabEscape(a), TabEscape(b)];
    assert Escapes([a, b]) == both && both[1..] == [TabEscape(b)];
    assert Join(both) == TabEscape(a) + [TAB] + TabEscape(b);
  }

  lemma EscapesOfOne(a: bytes)
    ensures Escapes([a]) == [TabEscape(a)] && Join(Escapes([a])) == TabEscape(a)
  {
    assert [a][1..] == [];
  }

  datatype Message = Message(command: byte, args: seq<bytes>)

  function Replies(messages: seq<Message>): seq<bytes> {
    if messages == [] then [] else [Reply(messages[0].command, messages[0].args)] + Replies(messages[1..])
  }

  lemma ReplyIsOneLine(command: byte, args: seq<bytes>)
    requires command != NEWLINE
    ensures LogLines.Terminated(Reply(command, args))
  {
    if args != [] {
      SplitJoinEscapes(args);
    }
    var line := Reply(command, args);
    assert line[..|line| - 1] == [command] + Join(Escapes(args));
  }

  /** The replies of a connection are its lines: no argument can end a line early. */
  lemma {:induction false} RepliesAreTheLines(messages: seq<Message>)
    requires forall i :: 0 <= i < |messages| ==> messages[i].command != NEWLINE
    ensures LogLines.Lines(Flatten(Replies(messages))) == Replies(messages)
  {
    RepliesSplit(messages);
    LogLines.SplitIsUnique(Replies(messages), Flatten(Replies(messages)));
  }

  lemma {:induction false} RepliesSplit(messages: seq<Message>)
    requires forall i :: 0 <= i < |messages| ==> messages[i].command != NEWLINE
    ensures forall i :: 0 <= i < |Replies(messages)| ==> LogLines.Terminated(Replies(messages)[i])
  {
    if messages != [] {
      RepliesSplit(messages[1..]);
      ReplyIsOneLine(messages[0].command, messages[0].args);
    }
  }
}
