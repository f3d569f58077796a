/** The modified UTF-7 of IMAP mailbox names (RFC 2060, section 5.1.3): the encoder of the fetchmail
    poller and an independent decoder. A Dafny `char` is a Unicode scalar value. */
module ImapUtf7 {
  import opened Bytes
  import opened Options

  // ---- UTF-16, most significant byte first ----

  function Pair(unit: int): bytes
    requires 0 <= unit < 0x10000
  {
    [(unit / 256) as byte, (unit % 256) as byte]
  }

  function Utf16Char(c: char): bytes {
    var n := c as int;
    if n < 0x10000 then Pair(n)
    else Pair(0xD800 + (n - 0x10000) / 0x400) + Pair(0xDC00 + (n - 0x10000) % 0x400)
  }

  function Utf16(s: string): bytes {
    if s == [] then [] else Utf16Char(s[0]) + Utf16(s[1..])
  }

  function Unit(b: bytes): int
    requires |b| >= 2
  {
    b[0] as int * 256 + b[1] as int
  }

  /** Decodes UTF-16; unpaired surrogates and odd lengths are errors. */
  function FromUtf16(b: bytes): Option<string> {
    if b == [] then Some([])
    else if |b| < 2 then None
    else
      var u := Unit(b);
      if 0xD800 <= u < 0xDC00 then
        if |b| < 4 then None
        else
          var v := Unit(b[2..]);
          if !(0xDC00 <= v < 0xE000) then None
          else Prepend((0x10000 + (u - 0xD800) * 0x400 + (v - 0xDC00)) as char, FromUtf16(b[4..]))
      else if 0xDC00 <= u < 0xE000 then None
      else Prepend(u as char, FromUtf16(b[2..]))
  }

  function Prepend<T>(x: T, rest: Option<seq<T>>): Option<seq<T>> {
    if rest.Some? then Some([x] + rest.value) else None
  }

  function Join<T>(front: Option<seq<T>>, rest: Option<seq<T>>): Option<seq<T>> {
    if front.Some? && rest.Some? then Some(front.value + rest.value) else None
  }

  lemma {:induction false} Utf16RoundTrip(s: string)
    ensures FromUtf16(Utf16(s)) == Some(s)
  {
    if s != [] {
      var c, rest := s[0], Utf16(s[1..]);
      Utf16RoundTrip(s[1..]);
      var b := Utf16Char(c) + rest;
      if (c as int) < 0x10000 {
        assert b[2..] == rest && Unit(b) == c as int;
      } else {
        var m := c as int - 0x10000;
        assert b[4..] == rest;
        assert Unit(b) == 0xD800 + m / 0x400 && Unit(b[2..]) == 0xDC00 + m % 0x400;
      }
      assert s == [c] + s[1..];
    }
  }

  lemma Utf16Nonempty(s: string)
    requires s != []
    ensures |Utf16(s)| >= 2
  {
  }

  // ---- base64 ----

  type Sextet = i: int | 0 <= i < 64

  /** The standard alphabet. */
  function Digit(i: Sextet): char {
    if i < 26 then (65 + i) as char
    else if i < 52 then (71 + i) as char
    else if i < 62 then (i - 4) as char
    else if i == 62 then '+'
    else '/'
  }

  function Chars(sextets: seq<Sextet>): string {
    seq(|sextets|, i requires 0 <= i < |sextets| => Digit(sextets[i]))
  }

  function Sextets(b: bytes): seq<Sextet> {
    if b == [] then []
    else
      var b0 := b[0] as int;
      if |b| == 1 then [b0 / 4, b0 % 4 * 16]
      else
        var b1 := b[1] as int;
        if |b| == 2 then [b0 / 4, b0 % 4 * 16 + b1 / 16, b1 % 16 * 4]
        else
          var b2 := b[2] as int;
          [b0 / 4, b0 % 4 * 16 + b1 / 16, b1 % 16 * 4 + b2 / 64, b2 % 64] + Sextets(b[3..])
  }

  /** `binascii.b2a_base64`: padded to a multiple of four and ended by a newline. */
  function B2aBase64(b: bytes): string {
    Chars(Sextets(b)) + (if |b| % 3 == 1 then "==" else if |b| % 3 == 2 then "=" else "") + "\n"
  }

  /** `rstrip(b"\n=")` */
  function StripPadding(s: string): string {
    if s != [] && (s[|s| - 1] == '\n' || s[|s| - 1] == '=') then StripPadding(s[..|s| - 1]) else s
  }

  function SlashToComma(s: string): string {
    seq(|s|, i requires 0 <= i < |s| => if s[i] == '/' then ',' else s[i])
  }

  /** What the encoder puts between '&' and '-'. */
  function Shifted(run: string): string {
    SlashToComma(StripPadding(B2aBase64(Utf16(run))))
  }

  function FromDigit(c: char): Option<Sextet> {
    if 'A' <= c <= 'Z' then Some(c as int - 65)
    else if 'a' <= c <= 'z' then Some(c as int - 71)
    else if '0' <= c <= '9' then Some(c as int + 4)
    else if c == '+' then Some(62)
    else if c == ',' then Some(63)
    else None
  }

  function FromDigits(s: string): Option<seq<Sextet>> {
    if s == [] then Some([])
    else
      var d := FromDigit(s[0]);
      if d.None? then None else Prepend(d.value, FromDigits(s[1..]))
  }

  /** Unpadded base64; bits that do not fill a byte must be zero. */
  function FromSextets(s: seq<Sextet>): Option<bytes> {
    if s == [] then Some([])
    else if |s| == 1 then None
    else
      var b0 := (s[0] as int * 4 + s[1] as int / 16) as byte;
      if |s| == 2 then (if s[1] % 16 == 0 then Some([b0]) else None)
      else
        var b1 := (s[1] as int % 16 * 16 + s[2] as int / 4) as byte;
        if |s| == 3 then (if s[2] % 4 == 0 then Some([b0, b1]) else None)
        else Join(Some([b0, b1, (s[2] as int % 4 * 64 + s[3] as int) as byte]), FromSextets(s[4..]))
  }

  lemma GroupRoundTrip(b0: byte, b1: byte, b2: byte)
    ensures var (x, y, z) := (b0 as int, b1 as int, b2 as int);
            var (s0, s1, s2, s3) := (x / 4, x % 4 * 16 + y / 16, y % 16 * 4 + z / 64, z % 64);
            s0 * 4 + s1 / 16 == x && s1 % 16 * 16 + s2 / 4 == y && s2 % 4 * 64 + s3 == z
  {
  }

  lemma {:induction false} SextetsRoundTrip(b: bytes)
    ensures FromSextets(Sextets(b)) == Some(b)
  {
    if |b| >= 3 {
      SextetsRoundTrip(b[3..]);
      var s := Sextets(b);
      assert s[4..] == Sextets(b[3..]);
      GroupRoundTrip(b[0], b[1], b[2]);
      assert b == [b[0], b[1], b[2]] + b[3..];
    } else if |b| == 2 {
      assert b == [b[0], b[1]];
    } else if |b| == 1 {
      assert b == [b[0]];
    }
  }

  lemma StripOne(s: string, c: char)
    requires c == '\n' || c == '='
    ensures StripPadding(s + [c]) == StripPadding(s)
  {
    assert (s + [c])[..|s|] == s;
  }

  /** Text that does not end in a padding character survives any padding. */
  lemma StripAfter(s: string, pad: string)
    requires pad in {"", "=", "=="}
    requires s == "" || (s[|s| - 1] != '=' && s[|s| - 1] != '\n')
    ensures StripPadding(s + pad + "\n") == s
  {
    StripOne(s + pad, '\n');
    if pad == "" {
      assert s + pad == s;
    } else {
      StripOne(s, '=');
    }
    if pad == "==" {
      StripOne(s + "=", '=');
      assert s + pad == s + "=" + "=";
    }
  }

  lemma StripsPadding(b: bytes)
    ensures StripPadding(B2aBase64(b)) == Chars(Sextets(b))
  {
    StripAfter(Chars(Sextets(b)), if |b| % 3 == 1 then "==" else if |b| % 3 == 2 then "=" else "");
  }

  lemma {:induction false} DigitsRoundTrip(s: seq<Sextet>)
    ensures FromDigits(SlashToComma(Chars(s))) == Some(s)
  {
    if s != [] {
      DigitsRoundTrip(s[1..]);
      var t := SlashToComma(Chars(s));
      assert t[1..] == SlashToComma(Chars(s[1..]));
      assert FromDigit(t[0]) == Some(s[0]);
      assert s == [s[0]] + s[1..];
    }
  }

  /** The text of a shifted run, if it has one. */
  function Unshifted(run: string): Option<string> {
    var sextets := FromDigits(run);
    if sextets.None? then None
    else
      var b := FromSextets(sextets.value);
      if b.None? then None else FromUtf16(b.value)
  }

  lemma ShiftRoundTrip(run: string)
    ensures Unshifted(Shifted(run)) == Some(run)
  {
    StripsPadding(Utf16(run));
    DigitsRoundTrip(Sextets(Utf16(run)));
    SextetsRoundTrip(Utf16(run));
    Utf16RoundTrip(run);
  }

  /** A shifted run is not empty and stays within the base64 alphabet, which lacks '-' and '&'. */
  lemma ShiftedShape(run: string)
    requires run != []
    ensures Shifted(run) != [] && '-' !in Shifted(run) && '&' !in Shifted(run)
    ensures forall c :: c in Shifted(run) ==> '+' <= c <= 'z'
  {
    Utf16Nonempty(run);
    StripsPadding(Utf16(run));
  }

  // ---- mailbox names ----

  const DEL := 0x7f as char

  /** The characters the encoder passes through. */
  predicate Plain(c: char) {
    ' ' <= c <= DEL
  }

  function EscapeAmpersands(s: string): string {
    if s == [] then [] else (if s[0] == '&' then "&-" else [s[0]]) + EscapeAmpersands(s[1..])
  }

  function Flush(run: string): string {
    if run == [] then [] else "&" + Shifted(run) + "-"
  }

  /** The loop's output for the rest `t` of its input when `run` is still to be encoded. */
  function Rest(t: string, run: string): string {
    if t == [] then []
    else if Plain(t[0]) then Flush(run) + [t[0]] + Rest(t[1..], [])
    else Rest(t[1..], run + [t[0]])
  }

  function Encoded(s: string, run: string): string {
    if s == [] then Flush(run)
    else if s[0] == '&' then Flush(run) + "&-" + Encoded(s[1..], [])
    else if Plain(s[0]) then Flush(run) + [s[0]] + Encoded(s[1..], [])
    else Encoded(s[1..], run + [s[0]])
  }

  lemma RestPlain(c: char, t: string, run: string)
    requires Plain(c)
    ensures Rest([c] + t, run) == Flush(run) + [c] + Rest(t, [])
  {
    assert ([c] + t)[1..] == t;
  }

  lemma JoinAmpersand(f: string, r: string)
    ensures f + ['&'] + (['-'] + r) == f + "&-" + r
  {
  }

  lemma RestAmpersand(t: string, run: string)
    ensures Rest("&-" + t, run) == Flush(run) + "&-" + Rest(t, [])
  {
    var u, r := ['-'] + t, Rest(t, []);
    assert "&-" + t == ['&'] + u;
    RestPlain('&', u, run);
    RestPlain('-', t, []);
    assert Rest(u, []) == ['-'] + r;
    JoinAmpersand(Flush(run), r);
  }

  lemma EscapedStep(s: string, x: string)
    requires s != ""
    ensures EscapeAmpersands(s) + x == (if s[0] == '&' then "&-" else [s[0]]) + (EscapeAmpersands(s[1..]) + x)
  {
  }

  /** The sentinel 'X' flushes the last run and is cut off again. */
  lemma {:induction false} SentinelFlushes(s: string, run: string)
    ensures Rest(EscapeAmpersands(s) + "X", run) == Encoded(s, run) + "X"
  {
    if s == [] {
      RestPlain('X', [], run);
      assert EscapeAmpersands(s) + "X" == ['X'] + [];
    } else {
      var u := EscapeAmpersands(s[1..]) + "X";
      EscapedStep(s, "X");
      if s[0] == '&' {
        RestAmpersand(u, run);
        SentinelFlushes(s[1..], []);
        Assoc(Flush(run) + "&-", Encoded(s[1..], []), "X");
      } else if Plain(s[0]) {
        RestPlain(s[0], u, run);
        SentinelFlushes(s[1..], []);
        Assoc(Flush(run) + [s[0]], Encoded(s[1..], []), "X");
      } else {
        assert ([s[0]] + u)[1..] == u;
        SentinelFlushes(s[1..], run + [s[0]]);
      }
    }
  }

  /** The characters that stand for themselves: printing US-ASCII and, here, 0x7f. */
  predicate StandsForItself(c: char) {
    0x20 <= c as int <= 0x7f
  }

  /** The decoder of the RFC, with 0x7f taken literally, too. It refuses a shifted run that hides a
      character which stands for itself, and one that only continues another. */
  function Decode(t: string): Option<string> {
    DecodeFrom(t, true)
  }

  /** A shifted run may start here only if `open`. */
  function DecodeFrom(t: string, open: bool): Option<string> {
    if t == [] then Some([])
    else if !StandsForItself(t[0]) then None
    else if t[0] != '&' then Prepend(t[0], DecodeFrom(t[1..], true))
    else
      var end := Find(t[1..], '-');
      if end < 0 then None
      else
        var run, rest := t[1..][..end], t[1..][end + 1..];
        if run == [] then Prepend('&', DecodeFrom(rest, true))
        else if !open then None
        else Join(Honest(Unshifted(run)), DecodeFrom(rest, false))
  }

  function Honest(text: Option<string>): Option<string> {
    if text.Some? && exists c :: c in text.value && StandsForItself(c) then None else text
  }

  lemma DecodeShift(run: string, t: string)
    requires run != [] && '-' !in run
    ensures DecodeFrom("&" + run + "-" + t, true) == Join(Honest(Unshifted(run)), DecodeFrom(t, false))
  {
    var all := "&" + run + "-" + t;
    var tail := all[1..];
    assert tail == run + "-" + t && tail[..|run|] == run;
    FindIs(tail, '-', |run|);
    assert tail[|run| + 1..] == t;
  }

  lemma DecodeAmpersand(t: string, open: bool)
    ensures DecodeFrom("&-" + t, open) == Prepend('&', DecodeFrom(t, true))
  {
    var tail := ("&-" + t)[1..];
    assert tail == "-" + t && tail[..0] == [];
    FindIs(tail, '-', 0);
    assert tail[1..] == t;
  }

  lemma DecodePlain(c: char, t: string, open: bool)
    requires StandsForItself(c) && c != '&'
    ensures DecodeFrom([c] + t, open) == Prepend(c, DecodeFrom(t, true))
  {
    assert ([c] + t)[1..] == t;
  }

  lemma DecodeAfterFlush(run: string, t: string, rest: string)
    requires DecodeFrom(t, true) == DecodeFrom(t, false) == Some(rest) && forall c :: c in run ==> !Plain(c)
    ensures DecodeFrom(Flush(run) + t, true) == Some(run + rest)
  {
    if run == [] {
      assert Flush(run) + t == t && run + rest == rest;
    } else {
      ShiftedShape(run);
      ShiftRoundTrip(run);
      DecodeShift(Shifted(run), t);
    }
  }

  lemma {:induction false} DecodeEncoded(s: string, run: string)
    requires forall c :: c in run ==> !Plain(c)
    ensures Decode(Encoded(s, run)) == Some(run + s)
  {
    if s == [] {
      DecodeAfterFlush(run, [], []);
      assert Flush(run) + [] == Flush(run);
    } else {
      var c, rest := s[0], s[1..];
      assert s == [c] + rest && [] + rest == rest;
      if c == '&' || Plain(c) {
        var t := Encoded(rest, []);
        DecodeEncoded(rest, []);
        var piece := if c == '&' then "&-" else [c];
        if c == '&' {
          DecodeAmpersand(t, true);
          DecodeAmpersand(t, false);
        } else {
          DecodePlain(c, t, true);
          DecodePlain(c, t, false);
        }
        DecodeAfterFlush(run, piece + t, s);
        Assoc(Flush(run), piece, t);
      } else {
        DecodeEncoded(rest, run + [c]);
        Assoc(run, [c], rest);
      }
    }
  }

  /** Every name survives encoding and decoding. */
  lemma RoundTrip(s: string)
    ensures Decode(Encoded(s, [])) == Some(s)
  {
    DecodeEncoded(s, []);
    assert [] + s == s;
  }

  /** The output stays within 0x20..0x7f, and it stays within the printable US-ASCII characters the
      RFC asks for exactly when the name has no 0x7f. */
  lemma {:induction false} OutputAlphabet(s: string, run: string)
    requires forall c :: c in run ==> !Plain(c)
    ensures forall c :: c in Encoded(s, run) ==> 0x20 <= c as int <= 0x7f
    ensures 0x7f as char in Encoded(s, run) <==> 0x7f as char in s
  {
    if run != [] {
      ShiftedShape(run);
    }
    assert forall c :: c in Flush(run) ==> Plain(c) && c != DEL;
    if s != [] {
      if s[0] == '&' || Plain(s[0]) {
        OutputAlphabet(s[1..], []);
      } else {
        OutputAlphabet(s[1..], run + [s[0]]);
      }
      assert s == [s[0]] + s[1..];
    }
  }

  /** A name of literal characters other than '&' is left as it is. */
  lemma {:induction false} LiteralsStandForThemselves(s: string)
    requires forall c :: c in s ==> 0x20 <= c as int <= 0x7f && c != '&'
    ensures Encoded(s, []) == s
  {
    if s != [] {
      assert s[0] in s && forall c :: c in s[1..] ==> c in s;
      LiteralsStandForThemselves(s[1..]);
      assert [] + [s[0]] + s[1..] == s;
    }
  }

  /** What a reader sees in the open: the encoded name without its shifted runs, and '&' for "&-". */
  function Literals(t: string): string {
    if t == [] then []
    else if t[0] != '&' then [t[0]] + Literals(t[1..])
    else
      var end := Find(t[1..], '-');
      if end < 0 then []
      else (if end == 0 then "&" else "") + Literals(t[1..][end + 1..])
  }

  /** The characters of a name from 0x20 to 0x7f. */
  function Passed(s: string): string {
    if s == [] then []
    else (if 0x20 <= s[0] as int <= 0x7f then [s[0]] else []) + Passed(s[1..])
  }

  lemma LiteralsOfRun(run: string, t: string)
    requires run == "" || ('-' !in run && run != "")
    ensures Literals("&" + run + "-" + t) == (if run == "" then "&" else "") + Literals(t)
  {
    var tail := ("&" + run + "-" + t)[1..];
    assert tail == run + "-" + t && tail[..|run|] == run;
    FindIs(tail, '-', |run|);
    assert tail[|run| + 1..] == t;
  }

  lemma LiteralsAfterFlush(run: string, t: string)
    ensures Literals(Flush(run) + t) == Literals(t)
  {
    if run == [] {
      assert Flush(run) + t == t;
    } else {
      ShiftedShape(run);
      LiteralsOfRun(Shifted(run), t);
    }
  }

  /** Exactly those characters stand in the open, in their order. */
  lemma {:induction false} LiteralsArePassed(s: string, run: string)
    ensures Literals(Encoded(s, run)) == Passed(s)
  {
    if s == [] {
      LiteralsAfterFlush(run, []);
      assert Flush(run) + [] == Flush(run);
    } else if s[0] == '&' || Plain(s[0]) {
      var piece, t := if s[0] == '&' then "&-" else [s[0]], Encoded(s[1..], []);
      LiteralsArePassed(s[1..], []);
      Assoc(Flush(run), piece, t);
      LiteralsAfterFlush(run, piece + t);
      if s[0] == '&' {
        LiteralsOfRun("", t);
        assert piece + t == "&" + "" + "-" + t;
      } else {
        assert (piece + t)[1..] == t;
      }
    } else {
      LiteralsArePassed(s[1..], run + [s[0]]);
    }
  }

  // ---- the parts of the encoding, by their numbers ----

  function Shown(i: Sextet): char {
    SlashToComma([Digit(i)])[0]
  }

  /** The alphabet: that of base64, capital letters, small letters, digits and '+', with a comma for the
      slash. */
  lemma AlphabetIs(i: nat)
    requires i < 63
    ensures Shown(0) == 'A' && Shown(25) == 'Z' && Shown(26) == 'a' && Shown(51) == 'z'
    ensures Shown(52) == '0' && Shown(61) == '9' && Shown(62) == '+' && Shown(63) == ','
    ensures i !in {25, 51, 61, 62} ==> Shown(i + 1) as int == Shown(i) as int + 1
  {
  }

  function Number(sextets: seq<Sextet>): int {
    if sextets == [] then 0 else Number(sextets[..|sextets| - 1]) * 64 + sextets[|sextets| - 1] as int
  }

  lemma NumberOf(s: seq<Sextet>)
    ensures |s| == 2 ==> Number(s) == s[0] as int * 64 + s[1] as int
    ensures |s| == 3 ==> Number(s) == (s[0] as int * 64 + s[1] as int) * 64 + s[2] as int
    ensures |s| == 4 ==> Number(s) == ((s[0] as int * 64 + s[1] as int) * 64 + s[2] as int) * 64 + s[3] as int
  {
    if |s| == 2 {
      assert s[..1] == [s[0]] && Number(s[..1][..0]) == 0;
    } else if |s| == 3 {
      NumberOf(s[..2]);
    } else if |s| == 4 {
      NumberOf(s[..3]);
    }
  }

  /** Six bits to a digit, most significant first; what is missing of the last digit is zero. */
  lemma SextetsAreBits(b: bytes)
    requires b != []
    ensures |b| == 1 ==> |Sextets(b)| == 2 && Number(Sextets(b)) == b[0] as int * 16
    ensures |b| == 2 ==> |Sextets(b)| == 3 && Number(Sextets(b)) == (b[0] as int * 256 + b[1] as int) * 4
    ensures |b| >= 3 ==>
              var s := Sextets(b);
              && |s| >= 4 && s[4..] == Sextets(b[3..])
              && Number(s[..4]) == (b[0] as int * 256 + b[1] as int) * 256 + b[2] as int
  {
    var s := Sextets(b);
    if |b| < 3 {
      NumberOf(s);
    } else {
      NumberOf(s[..4]);
    }
  }

  /** UTF-16, high byte first: one unit below 0x10000, above it a high and a low surrogate. */
  lemma UnitsAre(c: char)
    ensures var b := Utf16([c]);
            if c as int < 0x10000 then |b| == 2 && b[0] as int * 256 + b[1] as int == c as int
            else
              && |b| == 4
              && var high, low := b[0] as int * 256 + b[1] as int, b[2] as int * 256 + b[3] as int;
              && 0xd800 <= high < 0xdc00 && 0xdc00 <= low < 0xe000
              && c as int == 0x10000 + (high - 0xd800) * 0x400 + (low - 0xdc00)
  {
  }

  /** `imaputf7encode`. */
  method ImapUtf7Encode(s: string) returns (out: string)
    ensures Decode(out) == Some(s)
    ensures forall c :: c in out ==> 0x20 <= c as int <= 0x7f
    ensures 0x7f as char in out <==> 0x7f as char in s
    ensures (forall c :: c in s ==> 0x20 <= c as int <= 0x7f && c != '&') ==> out == s
    ensures Literals(out) == Passed(s)
    ensures out == Encoded(s, [])
  {
    out := "";
    var enc := "";
    var t := EscapeAmpersands(s) + "X";
    assert t[0..] == t && "" + Rest(t, "") == Rest(t, "");
    for i := 0 to |t|
      invariant out + Rest(t[i..], enc) == Rest(t, "")
    {
      var c := t[i];
      RestStep(t, i, enc, out);
      if Plain(c) {
        if enc != "" {
          out := out + ("&" + SlashToComma(StripPadding(B2aBase64(Utf16(enc)))) + "-");
          enc := "";
        }
        out := out + [c];
      } else {
        enc := enc + [c];
      }
    }
    assert t[|t|..] == [] && out + [] == out;
    SentinelFlushes(s, "");
    out := out[..|out| - 1];
    assert out == Encoded(s, "");
    RoundTrip(s);
    OutputAlphabet(s, []);
    LiteralsArePassed(s, []);
    if forall c :: c in s ==> 0x20 <= c as int <= 0x7f && c != '&' {
      LiteralsStandForThemselves(s);
    }
  }

  lemma RestStep(t: string, i: nat, run: string, out: string)
    requires i < |t|
    ensures out + Rest(t[i..], run) ==
            if Plain(t[i]) then out + Flush(run) + [t[i]] + Rest(t[i + 1..], [])
            else out + Rest(t[i + 1..], run + [t[i]])
    ensures out + Flush([]) == out
  {
    assert t[i..][1..] == t[i + 1..];
    Assoc(out, Flush(run), [t[i]]);
    Assoc(out, Flush(run) + [t[i]], Rest(t[i + 1..], []));
  }
}
