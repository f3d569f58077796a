/** The relay of a relayed domain: reading the administrator's target and printing the next hop for
    Postfix's transport map. */
module RelayTarget {
  import opened Bytes
  import opened Options
  import Decimal

  /** Lower case, the domain encoder and `int(s, 10)`, which the program takes from libraries. The last
      two refuse by returning `None`. */
  datatype Library = Library(lower: string -> string, idna: string -> Option<string>, int10: string -> Option<int>)

  /** An encoded domain has at least one character, and only letters, digits, '-' and '.'. */
  ghost predicate Sound(lib: Library) {
    forall h :: lib.idna(h).Some? ==> IsPlain(lib.idna(h).value)
  }

  predicate IsPlain(name: string) {
    name != "" && ':' !in name && '[' !in name && ']' !in name
  }

  predicate StartsWith(s: string, prefix: string) {
    |prefix| <= |s| && forall i :: 0 <= i < |prefix| ==> s[i] == prefix[i]
  }

  predicate Opens(s: string) {
    s != "" && s[0] == '['
  }

  // ---- what a target means ----

  datatype Kind = Smtp | Mx | Lmtp

  /** A target as its writer thinks of it. */
  datatype Target = Target(kind: Kind, host: string, port: Option<string>, bracketed: bool)

  function KindPrefix(kind: Kind): string {
    match kind
    case Smtp => ""
    case Mx => "mx:"
    case Lmtp => "lmtp:"
  }

  function PortSuffix(port: Option<string>): string {
    if port.None? then "" else ":" + port.value
  }

  function Written(t: Target): string {
    KindPrefix(t.kind) + (if t.bracketed then "[" + t.host + "]" else t.host) + PortSuffix(t.port)
  }

  /** The targets that can be written at all: an MX lookup takes no brackets, a bracketed host ends at
      its bracket, and an address with colons needs brackets. */
  predicate Writable(t: Target) {
    if t.bracketed then t.kind != Mx && ']' !in t.host
    else ':' !in t.host && !Opens(t.host) && (t.port.Some? ==> ':' !in t.port.value)
  }

  /** A host called `mx` or `lmtp`, with a port, looks like a prefix. */
  predicate LooksPrefixed(t: Target) {
    t.kind == Smtp && !t.bracketed && t.port.Some? && (t.host == "mx" || t.host == "lmtp")
  }

  datatype Host = Name(name: string) | Ipv6(address: string)

  datatype Hop = Hop(lmtp: bool, mx: bool, host: Host, port: Option<int>)

  /** The next hop a target stands for, or `None` for a target that is refused. `domain` is the relayed
      domain, whose MX is the default. */
  function Destination(t: Target, domain: string, lib: Library): Option<Hop> {
    var host := if t.host != "" then Some(t.host) else if t.kind != Lmtp then Some(lib.lower(domain)) else None;
    var port := if t.port.None? then Some(None) else
      match lib.int10(t.port.value) case None => None case Some(p) => Some(Some(p));
    if host.None? || port.None? then None
    else
      var mx := t.kind == Mx || t.host == "";
      if ':' in host.value then Some(Hop(t.kind == Lmtp, mx, Ipv6(host.value), port.value))
      else match lib.idna(host.value)
        case None => None
        case Some(name) => Some(Hop(t.kind == Lmtp, mx, Name(name), port.value))
  }

  // ---- reading a target ----

  function Tail(rest: string): Option<Option<string>> {
    if rest == "" then Some(None) else if rest[0] == ':' then Some(Some(rest[1..])) else None
  }

  /** `[host]:port` */
  function Inside(kind: Kind, text: string): Option<Target>
    requires Opens(text)
  {
    if kind == Mx || ']' !in text then None
    else
      var end := Find(text, ']');
      match Tail(text[end + 1..])
      case None => None
      case Some(port) => Some(Target(kind, text[1..end], port, true))
  }

  /** `host:port` */
  function Outside(kind: Kind, text: string): Option<Target> {
    var colon := Find(text, ':');
    if colon < 0 then Some(Target(kind, text, None, false))
    else if ':' in text[colon + 1..] then None
    else Some(Target(kind, text[..colon], Some(text[colon + 1..]), false))
  }

  function Body(kind: Kind, text: string): Option<Target> {
    if Opens(text) then Inside(kind, text) else Outside(kind, text)
  }

  function Read(text: string): Option<Target> {
    if StartsWith(text, "mx:") then Body(Mx, text[3..])
    else if StartsWith(text, "lmtp:") then Body(Lmtp, text[5..])
    else Body(Smtp, text)
  }

  lemma {:induction false} FindIn(a: string, c: char, b: string)
    requires c !in a
    ensures Find(a + [c] + b, c) == |a|
    ensures (a + [c] + b)[..|a|] == a && (a + [c] + b)[|a| + 1..] == b
  {
    var s := a + [c] + b;
    assert s[..|a|] == a;
    FindIs(s, c, |a|);
  }

  lemma InsideReads(t: Target)
    requires Writable(t) && t.bracketed
    ensures Body(t.kind, "[" + t.host + "]" + PortSuffix(t.port)) == Some(t)
  {
    var rest := PortSuffix(t.port);
    var text := "[" + t.host + "]" + rest;
    FindIn("[" + t.host, ']', rest);
    assert text == "[" + t.host + [']'] + rest;
    assert text[1..|t.host| + 1] == t.host;
    assert t.port.Some? ==> rest[1..] == t.port.value;
  }

  lemma OutsideReads(t: Target)
    requires Writable(t) && !t.bracketed
    ensures Body(t.kind, t.host + PortSuffix(t.port)) == Some(t)
  {
    var text := t.host + PortSuffix(t.port);
    assert !Opens(text);
    if t.port.Some? {
      FindIn(t.host, ':', t.port.value);
      assert text == t.host + [':'] + t.port.value;
    } else {
      assert text == t.host;
    }
  }

  lemma BodyReads(t: Target)
    requires Writable(t)
    ensures Body(t.kind, Written(t)[|KindPrefix(t.kind)|..]) == Some(t)
  {
    var inner := if t.bracketed then "[" + t.host + "]" else t.host;
    assert Written(t) == KindPrefix(t.kind) + (inner + PortSuffix(t.port));
    assert Written(t)[|KindPrefix(t.kind)|..] == inner + PortSuffix(t.port);
    if t.bracketed {
      InsideReads(t);
    } else {
      OutsideReads(t);
    }
  }

  /** A target without a prefix starts with a word and a colon only if the word is its host. */
  lemma ColonEndsHost(t: Target, word: string)
    requires Writable(t) && t.kind == Smtp && ':' !in word && word != "" && !Opens(word)
    ensures StartsWith(Written(t), word + ":") <==> !t.bracketed && t.port.Some? && t.host == word
  {
    var text := Written(t);
    if t.bracketed {
      assert text[0] == '[' != (word + ":")[0];
    } else {
      assert text == t.host + PortSuffix(t.port);
      if t.port.Some? {
        FindIn(t.host, ':', t.port.value);
        assert text == t.host + [':'] + t.port.value;
        if StartsWith(text, word + ":") {
          PrefixIs(text, word);
          FindIs(text, ':', |word|);
          assert text[..|t.host|] == t.host;
        }
      } else {
        PrefixChars(text, word + ":");
        assert (word + ":")[|word|] == ':';
      }
    }
  }

  lemma PrefixIs(text: string, word: string)
    requires StartsWith(text, word + ":")
    ensures text[..|word|] == word && text[|word|] == ':'
  {
    assert forall i :: 0 <= i < |word| ==> text[i] == (word + ":")[i] == word[i];
    assert text[|word|] == (word + ":")[|word|];
  }

  lemma PrefixChars(s: string, prefix: string)
    ensures StartsWith(s, prefix) ==> forall c :: c in prefix ==> c in s
  {
  }

  lemma PlainReadsBack(t: Target)
    requires Writable(t) && t.kind == Smtp
    ensures Read(Written(t)) == Some(t) <==> !LooksPrefixed(t)
  {
    BodyReads(t);
    assert Written(t)[0..] == Written(t);
    ColonEndsHost(t, "mx");
    ColonEndsHost(t, "lmtp");
    assert "mx" + ":" == "mx:" && "lmtp" + ":" == "lmtp:";
  }

  /** A target in the input syntax is read as it was meant, unless its host looks like a prefix. */
  lemma TargetReadsBack(t: Target)
    requires Writable(t)
    ensures Read(Written(t)) == Some(t) <==> !LooksPrefixed(t)
  {
    if t.kind == Smtp {
      PlainReadsBack(t);
    } else {
      BodyReads(t);
      assert Written(t)[0] == KindPrefix(t.kind)[0];
    }
  }

  predicate Reads(kind: Kind, text: string, t: Target) {
    && t.kind == kind && Writable(t)
    && text == (if t.bracketed then "[" + t.host + "]" else t.host) + PortSuffix(t.port)
  }

  lemma InsideWasWritten(kind: Kind, text: string)
    requires Opens(text) && Inside(kind, text).Some?
    ensures Reads(kind, text, Inside(kind, text).value)
  {
    var end := Find(text, ']');
    var host := text[1..end];
    assert text == "[" + host + "]" + text[end + 1..];
    assert host == text[..end][1..];
    assert ']' !in host;
  }

  lemma OutsideWasWritten(kind: Kind, text: string)
    requires !Opens(text) && Outside(kind, text).Some?
    ensures Reads(kind, text, Outside(kind, text).value)
  {
    var colon := Find(text, ':');
    if colon >= 0 {
      assert text == text[..colon] + (":" + text[colon + 1..]);
      assert !Opens(text[..colon]);
    } else {
      assert text == text + "";
    }
  }

  lemma BodyWasWritten(kind: Kind, text: string)
    requires Body(kind, text).Some?
    ensures Reads(kind, text, Body(kind, text).value)
  {
    if Opens(text) {
      InsideWasWritten(kind, text);
    } else {
      OutsideWasWritten(kind, text);
    }
  }

  lemma PrefixedWasWritten(kind: Kind, text: string)
    requires StartsWith(text, KindPrefix(kind)) && Body(kind, text[|KindPrefix(kind)|..]).Some?
    ensures
      var t := Body(kind, text[|KindPrefix(kind)|..]).value;
      t.kind == kind && Writable(t) && Written(t) == text
  {
    var prefix := KindPrefix(kind);
    var rest := text[|prefix|..];
    BodyWasWritten(kind, rest);
    assert text == prefix + rest;
    var t := Body(kind, rest).value;
    Assoc(prefix, if t.bracketed then "[" + t.host + "]" else t.host, PortSuffix(t.port));
  }

  /** Every accepted text is a target in the input syntax, and the one it is read as. With
      `TargetReadsBack`: exactly the texts outside that syntax are refused. */
  lemma ReadWasWritten(text: string)
    requires Read(text).Some?
    ensures Writable(Read(text).value) && !LooksPrefixed(Read(text).value) && Written(Read(text).value) == text
  {
    assert text[0..] == text;
    if StartsWith(text, "mx:") {
      PrefixedWasWritten(Mx, text);
    } else if StartsWith(text, "lmtp:") {
      PrefixedWasWritten(Lmtp, text);
    } else {
      PrefixedWasWritten(Smtp, text);
      TargetReadsBack(Body(Smtp, text).value);
    }
  }

  /** A relay host called `mx` is lost: its port becomes the host. */
  lemma HostNamedMx()
    ensures Read(Written(Target(Smtp, "mx", Some("25"), false))) == Some(Target(Mx, "25", None, false))
  {
    var text := Written(Target(Smtp, "mx", Some("25"), false));
    assert text == "mx:25";
    assert text[3..] == "25";
  }

  // ---- printing the next hop ----

  function Chars(b: bytes): (s: string)
    ensures |s| == |b| && forall i :: 0 <= i < |b| ==> s[i] as int == b[i] as int
  {
    seq(|b|, i requires 0 <= i < |b| => (b[i] as int) as char)
  }

  function Codes(s: string): (b: bytes)
    requires AllDigits(s)
    ensures |b| == |s| && forall i :: 0 <= i < |s| ==> s[i] as int == b[i] as int && Decimal.IsDigit(b[i])
  {
    seq(|s|, i requires 0 <= i < |s| => (s[i] as int) as byte)
  }

  function Shown(n: int): string {
    if n < 0 then "-" + Chars(Decimal.Print(-n)) else Chars(Decimal.Print(n))
  }

  predicate AllDigits(s: string) {
    forall i :: 0 <= i < |s| ==> '0' <= s[i] <= '9'
  }

  function NumberOf(s: string): Option<int> {
    if s != "" && AllDigits(s) then Some(Decimal.Value(Codes(s)))
    else if |s| > 1 && s[0] == '-' && AllDigits(s[1..]) then Some(-(Decimal.Value(Codes(s[1..])) as int))
    else None
  }

  lemma NumeralOf(n: nat)
    ensures var s := Chars(Decimal.Print(n)); s != "" && AllDigits(s) && Decimal.Value(Codes(s)) == n
  {
    var b := Decimal.Print(n);
    var s := Chars(b);
    assert forall i :: 0 <= i < |s| ==> Decimal.IsDigit(b[i]);
    assert Codes(s) == b;
    Decimal.ValueOfPrint(n);
  }

  lemma Negated(s: string)
    requires s != "" && AllDigits(s)
    ensures NumberOf("-" + s) == Some(-(Decimal.Value(Codes(s)) as int))
  {
    assert ("-" + s)[1..] == s;
    assert ("-" + s)[0] == '-';
  }

  lemma NumberReadsBack(n: int)
    ensures NumberOf(Shown(n)) == Some(n)
  {
    if n < 0 {
      NumeralOf(-n);
      Negated(Chars(Decimal.Print(-n)));
    } else {
      NumeralOf(n);
    }
  }

  function HostText(host: Host): string {
    match host
    case Name(name) => name
    case Ipv6(address) => "ipv6:" + address
  }

  /** Square brackets: Postfix takes the host as it is. */
  predicate Bracketed(hop: Hop) {
    hop.host.Ipv6? || (!hop.lmtp && !hop.mx)
  }

  function PortText(port: Option<int>): string {
    if port.None? then "" else ":" + Shown(port.value)
  }

  function HostPart(hop: Hop): string {
    if Bracketed(hop) then "[" + HostText(hop.host) + "]" else HostText(hop.host)
  }

  function Line(hop: Hop): string {
    (if hop.lmtp then "lmtp:" else "smtp:")
    + HostPart(hop)
    + PortText(hop.port)
  }

  function PortOf(text: string): Option<Option<int>> {
    if text == "" then Some(None)
    else if text[0] != ':' then None
    else match NumberOf(text[1..]) case None => None case Some(n) => Some(Some(n))
  }

  function HostOf(text: string): Host {
    if StartsWith(text, "ipv6:") then Ipv6(text[5..]) else Name(text)
  }

  /** How Postfix reads a next hop: transport, then a bracketed host taken as it is, or a bare one (for
      SMTP, the domain whose MX to look up), then perhaps a port. */
  function HopOf(line: string): Option<Hop> {
    if StartsWith(line, "lmtp:") then HopBody(true, line[5..])
    else if StartsWith(line, "smtp:") then HopBody(false, line[5..])
    else None
  }

  function HopBody(lmtp: bool, text: string): Option<Hop> {
    if Opens(text) then
      var end := Find(text, ']');
      if end < 1 then None
      else match PortOf(text[end + 1..])
        case None => None
        case Some(port) => Some(Hop(lmtp, false, HostOf(text[1..end]), port))
    else
      var end := if Find(text, ':') < 0 then |text| else Find(text, ':');
      match PortOf(text[end..])
      case None => None
      case Some(port) => Some(Hop(lmtp, !lmtp, Name(text[..end]), port))
  }

  /** The hops the program prints. */
  predicate Printable(hop: Hop) {
    match hop.host
    case Name(name) => IsPlain(name) && !(hop.lmtp && hop.mx)
    case Ipv6(address) => ']' !in address && !hop.mx
  }

  lemma PortReadsBack(port: Option<int>)
    ensures PortOf(PortText(port)) == Some(port)
  {
    if port.Some? {
      NumberReadsBack(port.value);
      assert (":" + Shown(port.value))[1..] == Shown(port.value);
    }
  }

  lemma HostReadsBack(host: Host)
    requires host.Name? ==> ':' !in host.name
    ensures HostOf(HostText(host)) == host
  {
    var text := HostText(host);
    if host.Ipv6? {
      assert text[..5] == "ipv6:" && text[5..] == host.address;
    } else {
      PrefixChars(text, "ipv6:");
      assert "ipv6:"[4] == ':';
    }
  }

  lemma LineBody(hop: Hop)
    ensures HopOf(Line(hop)) == HopBody(hop.lmtp, HostPart(hop) + PortText(hop.port))
  {
    var body := HostPart(hop) + PortText(hop.port);
    if hop.lmtp {
      Assoc("lmtp:", HostPart(hop), PortText(hop.port));
      assert ("lmtp:" + body)[5..] == body;
    } else {
      Assoc("smtp:", HostPart(hop), PortText(hop.port));
      assert ("smtp:" + body)[5..] == body;
      assert ("smtp:" + body)[0] == 's';
    }
  }

  lemma HostInside(host: string, port: string)
    requires ']' !in host
    ensures
      var text := "[" + host + "]" + port;
      var end := Find(text, ']');
      Opens(text) && end >= 1 && text[1..end] == host && text[end + 1..] == port
  {
    var text := "[" + host + "]" + port;
    FindIn("[" + host, ']', port);
    assert text == "[" + host + [']'] + port;
    assert text[1..|host| + 1] == host;
  }

  /** The printed next hop says what was meant, so no two hops are printed alike. */
  lemma HopReadsBack(hop: Hop)
    requires Printable(hop)
    ensures HopOf(Line(hop)) == Some(hop)
  {
    LineBody(hop);
    PortReadsBack(hop.port);
    HostReadsBack(hop.host);
    if Bracketed(hop) {
      HostInside(HostText(hop.host), PortText(hop.port));
    } else {
      BareHost(HostText(hop.host), PortText(hop.port));
    }
  }

  lemma BareHost(name: string, port: string)
    requires IsPlain(name) && (port == "" || port[0] == ':')
    ensures
      var text := name + port;
      var end := if Find(text, ':') < 0 then |text| else Find(text, ':');
      !Opens(text) && text[..end] == name && text[end..] == port
  {
    var text := name + port;
    if port == "" {
      assert text == name;
    } else {
      FindIn(name, ':', port[1..]);
      assert text == name + [':'] + port[1..];
    }
    assert text[0] == name[0];
  }

  lemma HopsDiffer(a: Hop, b: Hop)
    requires Printable(a) && Printable(b) && Line(a) == Line(b)
    ensures a == b
  {
    HopReadsBack(a);
    HopReadsBack(b);
  }

  // ---- the whole of it ----

  function Answer(smtp: string, domain: string, lib: Library): Option<string> {
    match Read(lib.lower(smtp))
    case None => None
    case Some(t) =>
      match Destination(t, domain, lib)
      case None => None
      case Some(hop) => Some(Line(hop))
  }

  /** `postfix_transport` for the relay of `domain`; `None` is the answer 400. */
  method PostfixTransport(smtp: string, domain: string, lib: Library) returns (answer: Option<string>)
    requires Sound(lib)
    ensures answer == Answer(smtp, domain, lib)
  {
    var target := lib.lower(smtp);
    var host, port;
    var useLmtp, useMx := false, false;
    if StartsWith(target, "mx:") {
      target, useMx := target[3..], true;
    } else if StartsWith(target, "lmtp:") {
      target, useLmtp := target[5..], true;
    }
    ghost var kind := if useMx then Mx else if useLmtp then Lmtp else Smtp;
    assert Read(lib.lower(smtp)) == Body(kind, target);
    var fine;
    fine, host, port := SplitHost(target, useMx, kind);
    if !fine {
      return None;
    }
    answer := NextHop(Body(kind, target).value, host, port, useLmtp, useMx, domain, lib);
  }

  /** `host:port` or `[host]:port`, or not `fine`. */
  method SplitHost(target: string, useMx: bool, ghost kind: Kind)
    returns (fine: bool, host: string, port: Option<string>)
    requires useMx == kind.Mx?
    ensures fine == Body(kind, target).Some?
    ensures fine ==> Body(kind, target) == Some(Target(kind, host, port, Opens(target)))
  {
    port := None;
    if Opens(target) {
      if useMx || ']' !in target {
        return false, "", None;
      }
      var end := Find(target, ']');
      host := target[1..end];
      var rest := target[end + 1..];
      if rest != "" && rest[0] == ':' {
        port := Some(rest[1..]);
      } else if rest != "" {
        return false, "", None;
      }
    } else {
      var colon := Find(target, ':');
      if colon >= 0 && ':' in target[colon + 1..] {
        return false, "", None;
      }
      if colon >= 0 {
        host, port := target[..colon], Some(target[colon + 1..]);
      } else {
        host := target;
      }
    }
    fine := true;
  }

  /** The last third of `postfix_transport`: defaults, encoding and printing. */
  method NextHop(ghost meant: Target, name: string, portText: Option<string>, useLmtp: bool, mx: bool, domain: string,
                 lib: Library)
      returns (answer: Option<string>)
    requires Sound(lib) && meant.host == name && meant.port == portText
    requires useLmtp == meant.kind.Lmtp? && mx == meant.kind.Mx?
    ensures answer == match Destination(meant, domain, lib) case None => None case Some(hop) => Some(Line(hop))
  {
    var host, useMx := name, mx;
    if host == "" {
      if !useLmtp {
        host := lib.lower(domain);
        useMx := true;
      } else {
        return None;
      }
    }
    if ':' in host {
      host := "ipv6:" + host;
    } else {
      match lib.idna(host) {
        case None => return None;
        case Some(encoded) => host := encoded;
      }
      PrefixChars(host, "ipv6:");
      assert "ipv6:"[4] == ':';
    }
    var suffix := "";
    if portText.Some? {
      match lib.int10(portText.value) {
        case None => return None;
        case Some(port) => suffix := ":" + Shown(port);
      }
    }
    var transport := if useLmtp then "lmtp" else "smtp";
    if StartsWith(host, "ipv6:") || (!useLmtp && !useMx) {
      host := "[" + host + "]";
    }
    assert transport + ":" == if useLmtp then "lmtp:" else "smtp:";
    answer := Some(transport + ":" + host + suffix);
  }

  /** What is printed for an accepted target can be read back, provided the relayed domain is a name. */
  lemma DestinationIsPrintable(t: Target, domain: string, lib: Library)
    requires Sound(lib) && Writable(t) && ':' !in lib.lower(domain)
    requires Destination(t, domain, lib).Some?
    ensures Printable(Destination(t, domain, lib).value)
  {
  }

  /** From the administrator's intent to Postfix's reading: whatever target is written, its next hop is
      the one it stands for, or the answer is 400 because it stands for none. */
  lemma TargetReachesHop(t: Target, smtp: string, domain: string, lib: Library)
    requires Sound(lib) && ':' !in lib.lower(domain)
    requires Writable(t) && !LooksPrefixed(t) && lib.lower(smtp) == Written(t)
    ensures
      match Answer(smtp, domain, lib)
      case None => Destination(t, domain, lib) == None
      case Some(line) => HopOf(line) == Destination(t, domain, lib)
  {
    TargetReadsBack(t);
    if Destination(t, domain, lib).Some? {
      DestinationIsPrintable(t, domain, lib);
      HopReadsBack(Destination(t, domain, lib).value);
    }
  }

  /** A target with a host means that host: by LMTP or with an MX lookup as its prefix says, an IPv6
      address if it has a colon, and the port given. It is refused only for a host that cannot be encoded
      or a port that is no number. */
  lemma HostedTargetMeans(t: Target, domain: string, lib: Library)
    requires t.host != ""
    ensures Destination(t, domain, lib).Some? <==>
              && (':' in t.host || lib.idna(t.host).Some?)
              && (t.port.Some? ==> lib.int10(t.port.value).Some?)
    ensures Destination(t, domain, lib).Some? ==>
              var hop := Destination(t, domain, lib).value;
              && (hop.lmtp <==> t.kind == Lmtp) && (hop.mx <==> t.kind == Mx)
              && (':' in t.host ==> hop.host == Ipv6(t.host))
              && (':' !in t.host ==> hop.host == Name(lib.idna(t.host).value))
              && hop.port == if t.port.None? then None else lib.int10(t.port.value)
  {
  }

  /** The input syntax, case by case. */
  lemma WrittenIs(h: string, p: string, kind: Kind, bracketed: bool)
    ensures Written(Target(Smtp, h, None, false)) == h
    ensures Written(Target(Mx, h, None, false)) == "mx:" + h
    ensures Written(Target(Lmtp, h, None, false)) == "lmtp:" + h
    ensures Written(Target(Smtp, h, None, true)) == "[" + h + "]"
    ensures Written(Target(Lmtp, h, None, true)) == "lmtp:[" + h + "]"
    ensures Written(Target(kind, h, Some(p), bracketed)) == Written(Target(kind, h, None, bracketed)) + ":" + p
  {
    var t := Target(kind, h, None, bracketed);
    assert Written(t) + "" == Written(t);
    Assoc(Written(t), ":", p);
    assert "lmtp:" + ("[" + h + "]") == "lmtp:[" + h + "]";
  }

  /** The output, case by case; only LMTP and bracketed hosts are not looked up. */
  lemma LineIs(n: string)
    ensures Line(Hop(false, true, Name(n), None)) == "smtp:" + n
    ensures Line(Hop(false, false, Name(n), None)) == "smtp:" + ("[" + n + "]")
    ensures Line(Hop(true, false, Name(n), None)) == "lmtp:" + n
    ensures Line(Hop(false, false, Ipv6(n), None)) == "smtp:" + ("[" + ("ipv6:" + n) + "]")
    ensures Line(Hop(true, false, Ipv6(n), None)) == "lmtp:" + ("[" + ("ipv6:" + n) + "]")
  {
  }

  lemma WithSuffix(scheme: string, host: string, suffix: string)
    ensures scheme + host + "" + suffix == scheme + host + suffix
  {
  }

  lemma SameHostPart(hop: Hop)
    ensures HostPart(hop.(port := None)) == HostPart(hop)
  {
  }

  lemma LineWithPort(hop: Hop)
    ensures Line(hop) == Line(hop.(port := None)) + PortText(hop.port)
  {
    SameHostPart(hop);
    WithSuffix(if hop.lmtp then "lmtp:" else "smtp:", HostPart(hop), PortText(hop.port));
  }

  /** A port is shown in decimal. */
  lemma ShownIs(n: nat)
    ensures |Shown(n)| == |Decimal.Print(n)|
    ensures forall i :: 0 <= i < |Shown(n)| ==> Shown(n)[i] as int == Decimal.Print(n)[i] as int
    ensures n > 0 ==> Shown(0 - n) == "-" + Shown(n)
    ensures PortText(Some(n)) == ":" + Shown(n) && PortText(None) == ""
  {
  }

  /** Without a host, SMTP delivers to the MX of the relayed domain, at the port given, and LMTP not at
      all; a port that is no number is refused. */
  lemma EmptyHostMeansRelayDomain(t: Target, domain: string, lib: Library)
    requires t.host == "" && Sound(lib) && ':' !in lib.lower(domain)
    ensures var name := lib.idna(lib.lower(domain));
            var port := if t.port.None? then None else lib.int10(t.port.value);
            Destination(t, domain, lib)
            == if t.kind == Lmtp || name.None? || (t.port.Some? && port.None?) then None
               else Some(Hop(false, true, Name(name.value), port))
  {
  }

  /** Brackets stand around IPv6 addresses and hosts that SMTP must not look up, and nothing else. */
  lemma BracketsExactlyWhen(hop: Hop)
    requires Printable(hop)
    ensures Opens(Line(hop)[5..]) <==> hop.host.Ipv6? || (!hop.lmtp && !hop.mx)
  {
    var host := HostPart(hop);
    assert Opens(host) <==> Bracketed(hop);
    AfterScheme(if hop.lmtp then "lmtp:" else "smtp:", host, PortText(hop.port));
  }

  lemma AfterScheme(scheme: string, host: string, rest: string)
    requires |scheme| == 5 && host != ""
    ensures Opens((scheme + host + rest)[5..]) <==> Opens(host)
  {
    assert (scheme + host + rest)[5..] == host + rest;
    assert (host + rest)[0] == host[0];
  }
}
