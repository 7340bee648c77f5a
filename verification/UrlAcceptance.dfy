/**
  Which texts the parser accepts and what it reads in them, told in letters: the alphabet of host names, the
  digits of ports, the separators and the default port are all written out here.
 */
module UrlAcceptance {
  import opened Options
  import opened UrlSyntax
  import opened UrlRoundTrip
  import opened UrlStops

  // ------------------------------------------------------------ the alphabet

  predicate LowerCase(c: char) {
    c in {'a', 'b', 'c', 'd', 'e', 'f', 'g', 'h', 'i', 'j', 'k', 'l', 'm',
          'n', 'o', 'p', 'q', 'r', 's', 't', 'u', 'v', 'w', 'x', 'y', 'z'}
  }

  predicate UpperCase(c: char) {
    c in {'A', 'B', 'C', 'D', 'E', 'F', 'G', 'H', 'I', 'J', 'K', 'L', 'M',
          'N', 'O', 'P', 'Q', 'R', 'S', 'T', 'U', 'V', 'W', 'X', 'Y', 'Z'}
  }

  predicate Digit(c: char) {
    c in {'0', '1', '2', '3', '4', '5', '6', '7', '8', '9'}
  }

  predicate NameChar(c: char) {
    LowerCase(c) || UpperCase(c) || Digit(c) || c in {'-', '.', '_', '~'}
  }

  predicate Ip6Char(c: char) {
    Digit(c) || c in {'a', 'b', 'c', 'd', 'e', 'f', 'A', 'B', 'C', 'D', 'E', 'F', ':', '.'}
  }

  datatype Alphabet = Names | Decimals | Literals

  predicate Letter(k: Alphabet, c: char) {
    match k
    case Names => NameChar(c)
    case Decimals => Digit(c)
    case Literals => Ip6Char(c)
  }

  predicate Over(s: string, k: Alphabet) {
    forall i :: 0 <= i < |s| ==> Letter(k, s[i])
  }

  lemma LowerRange(c: char)
    ensures LowerCase(c) <==> 'a' <= c <= 'z'
  {
  }

  lemma UpperRange(c: char)
    ensures UpperCase(c) <==> 'A' <= c <= 'Z'
  {
  }

  lemma DigitRange(c: char)
    ensures Digit(c) <==> IsDigit(c)
  {
  }

  lemma NameRange(c: char)
    ensures NameChar(c) <==> IsUnreserved(c)
  {
    LowerRange(c);
    UpperRange(c);
    DigitRange(c);
  }

  lemma Ip6Range(c: char)
    ensures Ip6Char(c) <==> In(Ip6Chars, c)
  {
  }

  /** What the rules of the grammar see in such texts. */
  lemma NameFacts(h: string)
    requires Over(h, Names)
    ensures NameChars(h) && ':' !in h && '@' !in h
  {
    forall k | 0 <= k < |h| ensures IsUnreserved(h[k]) {
      NameRange(h[k]);
    }
  }

  lemma DecimalFacts(ds: string)
    requires Over(ds, Decimals)
    ensures (forall k :: 0 <= k < |ds| ==> IsDigit(ds[k])) && '@' !in ds && Over(ds, Names)
  {
    forall k | 0 <= k < |ds| ensures IsDigit(ds[k]) {
      DigitRange(ds[k]);
    }
  }

  lemma LiteralFacts(h: string)
    requires Over(h, Literals)
    ensures (forall k :: 0 <= k < |h| ==> In(Ip6Chars, h[k])) && '@' !in h
  {
    forall k | 0 <= k < |h| ensures In(Ip6Chars, h[k]) {
      Ip6Range(h[k]);
    }
  }

  // ------------------------------------------------------------ decimal numbers

  function DigitOf(c: char): nat {
    if c == '1' then 1 else if c == '2' then 2 else if c == '3' then 3 else if c == '4' then 4 else if c == '5' then 5
    else if c == '6' then 6 else if c == '7' then 7 else if c == '8' then 8 else if c == '9' then 9 else 0
  }

  function Pow10(n: nat): nat {
    if n == 0 then 1 else 10 * Pow10(n - 1)
  }

  /** What the digits stand for, place by place. */
  function Decimal(s: string): nat {
    if s == "" then 0 else DigitOf(s[0]) * Pow10(|s| - 1) + Decimal(s[1..])
  }

  lemma {:induction false} DecimalSnoc(s: string, c: char)
    ensures Decimal(s + [c]) == Decimal(s) * 10 + DigitOf(c)
  {
    var t := s + [c];
    if s == "" {
      assert t[1..] == "" && Pow10(0) == 1;
    } else {
      assert t[1..] == s[1..] + [c];
      DecimalSnoc(s[1..], c);
      assert Pow10(|s|) == 10 * Pow10(|s| - 1);
    }
  }

  lemma {:induction false} ValueIsDecimal(s: string)
    requires forall k :: 0 <= k < |s| ==> IsDigit(s[k])
    ensures Value(s) == Decimal(s)
  {
    if s != "" {
      var n := |s| - 1;
      ValueIsDecimal(s[..n]);
      assert s == s[..n] + [s[n]];
      DecimalSnoc(s[..n], s[n]);
    }
  }

  // ------------------------------------------------------------ one address

  /** A host as it can be written: a name, or an IPv6 literal in brackets. */
  predicate HostText(h: string, bracketed: bool) {
    if bracketed then |h| >= 2 && Over(h, Literals) else h != "" && Over(h, Names)
  }

  function Written(h: string, bracketed: bool, port: Option<string>): string {
    (if bracketed then "[" + h + "]" else h) + PortText(port)
  }

  function PortText(port: Option<string>): string {
    if port.Some? then ":" + port.value else ""
  }

  predicate GoodPort(port: Option<string>) {
    port.Some? ==> port.value != "" && Over(port.value, Decimals) && Decimal(port.value) < 65536
  }

  function PortOf(port: Option<string>): Port
    requires GoodPort(port)
  {
    if port.Some? then Decimal(port.value) else 5672
  }

  lemma HostReads(h: string, bracketed: bool, port: Option<string>)
    requires HostText(h, bracketed)
    ensures Host(Written(h, bracketed, port)) == Parsed(true, h, PortText(port))
  {
    if bracketed {
      LiteralFacts(h);
      PrintedIp6(h, PortText(port));
    } else {
      NameFacts(h);
      PrintedName(h, PortText(port));
    }
  }

  /** Digits after a colon are a port exactly when there are some and they stand for less than 65536. */
  lemma PortReads(ds: string)
    requires Over(ds, Decimals)
    ensures PortNumber(ds) ==
            if ds != "" && Decimal(ds) < 65536 then Parsed(true, Decimal(ds), "") else Parsed(false, 0, "")
  {
    DecimalFacts(ds);
    assert ds + "" == ds && ds[..|ds|] == ds;
    SpanExact(Digits, ds, "");
    ValueIsDecimal(ds);
  }

  lemma OptionalReads(port: Option<string>)
    requires GoodPort(port)
    ensures OptionalPort(PortText(port)) == Parsed(true, PortOf(port), "")
  {
    if port.Some? {
      assert PortText(port)[1..] == port.value;
      PortReads(port.value);
    }
  }

  /** No tag that can be named is written in front. */
  ghost predicate Untagged(cfg: Config, text: string) {
    forall t :: t in cfg.tags && ':' !in t ==> !(t + ":" <= text)
  }

  lemma UntaggedTag(cfg: Config, text: string)
    requires Untagged(cfg, text)
    ensures ProtocolTag(cfg, text) == Parsed(false, cfg.defaultProtocol, text)
  {
    var j := Find(text, ':');
    if j < |text| {
      var t := text[..j];
      assert text[..j + 1] == t + ":";
    }
  }

  lemma TaggedTag(cfg: Config, t: string, text: string)
    requires Nameable(cfg, t)
    ensures ProtocolTag(cfg, t + ":" + text) == Parsed(true, t, text)
  {
    FindExact(t, ':', text);
    var s := t + ":" + text;
    assert t + [':'] + text == s && s[..|t|] == t && s[|t| + 1..] == text;
  }

  lemma OneAddress(cfg: Config, s: string, h: string, bracketed: bool, port: Option<string>)
    requires HostText(h, bracketed) && GoodPort(port) && ProtocolTag(cfg, s).rest == Written(h, bracketed, port)
    ensures AddrList(cfg, s) == Parsed(true, [Address(ProtocolTag(cfg, s).value, h, PortOf(port))], "")
  {
    HostReads(h, bracketed, port);
    OptionalReads(port);
  }

  lemma NoCredentials(text: string)
    requires '@' !in text
    ensures UserPass(SkipScheme("amqp:" + text)) == Credentials("", "", text)
  {
    PrintedScheme(text);
    FindNone(text, '@');
  }

  lemma NoAtWritten(h: string, bracketed: bool, port: Option<string>)
    requires HostText(h, bracketed) && GoodPort(port)
    ensures '@' !in Written(h, bracketed, port)
  {
    if bracketed { LiteralFacts(h); } else { NameFacts(h); }
    if port.Some? { DecimalFacts(port.value); }
  }

  /** Without a tag: a name or a bracketed literal, with or without a port, is one address of the default protocol. */
  lemma UntaggedAccepted(cfg: Config, h: string, bracketed: bool, port: Option<string>)
    requires HostText(h, bracketed) && GoodPort(port) && Untagged(cfg, Written(h, bracketed, port))
    ensures Parse(cfg, "amqp:" + Written(h, bracketed, port)) ==
            Url("", "", [Address(cfg.defaultProtocol, h, PortOf(port))])
  {
    var text := Written(h, bracketed, port);
    NoAtWritten(h, bracketed, port);
    NoCredentials(text);
    UntaggedTag(cfg, text);
    OneAddress(cfg, text, h, bracketed, port);
  }

  /** With a registered tag in front, it is one address of that protocol. */
  lemma TaggedAccepted(cfg: Config, t: string, h: string, bracketed: bool, port: Option<string>)
    requires Nameable(cfg, t) && '@' !in t && HostText(h, bracketed) && GoodPort(port)
    ensures Parse(cfg, "amqp:" + (t + ":" + Written(h, bracketed, port))) == Url("", "", [Address(t, h, PortOf(port))])
  {
    var text := t + ":" + Written(h, bracketed, port);
    NoAtWritten(h, bracketed, port);
    NoCredentials(text);
    TaggedTag(cfg, t, Written(h, bracketed, port));
    OneAddress(cfg, text, h, bracketed, port);
  }

  /** The scheme may be left out: every name is an address of the default protocol at port 5672. */
  lemma BareNameAccepted(cfg: Config, h: string)
    requires h != "" && Over(h, Names)
    ensures Parse(cfg, h) == Url("", "", [Address(cfg.defaultProtocol, h, 5672)])
  {
    NameFacts(h);
    NoScheme(h);
    FindNone(h, '@');
    NoTagInName(cfg, h);
    OneAddress(cfg, h, h, false, None);
  }

  lemma NoScheme(h: string)
    requires ':' !in h
    ensures SkipScheme(h) == h
  {
    assert |h| >= 5 ==> h[4] in h && h[..5][4] == h[4];
  }

  lemma NoTagInName(cfg: Config, h: string)
    requires ':' !in h
    ensures ProtocolTag(cfg, h) == Parsed(false, cfg.defaultProtocol, h) && Written(h, false, None) == h
  {
    FindNone(h, ':');
    assert h + "" == h;
  }

  /** A name, a colon and digits: an address if and only if the digits are a port, or the name a tag of a host. */
  lemma NameAndDigits(cfg: Config, h: string, ds: string)
    requires h != "" && Over(h, Names) && Over(ds, Decimals)
    ensures Parse(cfg, "amqp:" + (h + ":" + ds)).addresses ==
            if h in cfg.tags then (if ds == "" then [] else [Address(h, ds, 5672)])
            else if ds != "" && Decimal(ds) < 65536 then [Address(cfg.defaultProtocol, h, Decimal(ds))]
            else []
  {
    var text := h + ":" + ds;
    NameFacts(h);
    DecimalFacts(ds);
    NoCredentials(text);
    if h in cfg.tags {
      DigitsAfterTag(cfg, h, ds);
    } else {
      DigitsAfterName(cfg, h, ds);
    }
  }

  lemma DigitsAfterName(cfg: Config, h: string, ds: string)
    requires h != "" && Over(h, Names) && Over(ds, Decimals) && h !in cfg.tags
    ensures AddrList(cfg, h + ":" + ds) ==
            if ds != "" && Decimal(ds) < 65536 then Parsed(true, [Address(cfg.defaultProtocol, h, Decimal(ds))], "")
            else Parsed(true, [], "")
  {
    var text := h + ":" + ds;
    NotATag(cfg, h, ds);
    assert text == Written(h, false, Some(ds));
    HostReads(h, false, Some(ds));
    assert (":" + ds)[1..] == ds;
    PortReads(ds);
  }

  lemma NotATag(cfg: Config, h: string, ds: string)
    requires Over(h, Names) && h !in cfg.tags
    ensures ProtocolTag(cfg, h + ":" + ds) == Parsed(false, cfg.defaultProtocol, h + ":" + ds)
  {
    var text := h + ":" + ds;
    NameFacts(h);
    FindExact(h, ':', ds);
    assert h + [':'] + ds == text && text[..|h|] == h;
  }

  lemma DigitsAfterTag(cfg: Config, h: string, ds: string)
    requires Nameable(cfg, h) && Over(ds, Decimals)
    ensures AddrList(cfg, h + ":" + ds) ==
            if ds == "" then Parsed(true, [], "") else Parsed(true, [Address(h, ds, 5672)], "")
  {
    TaggedTag(cfg, h, ds);
    if ds != "" {
      DecimalFacts(ds);
      assert ds + "" == ds;
      OneAddress(cfg, h + ":" + ds, ds, false, None);
    }
  }

  // ------------------------------------------------------------ nothing else is read

  /** A host the parser can yield: letters, digits, "-._~" and percent signs, or what brackets can hold. */
  predicate ReadHost(h: string) {
    && h != ""
    && ((forall k :: 0 <= k < |h| ==> NameChar(h[k]) || h[k] == '%') || (|h| >= 2 && Over(h, Literals)))
  }

  lemma ValidIsRead(h: string)
    requires ValidHost(h)
    ensures ReadHost(h)
  {
    if ':' in h {
      forall k | 0 <= k < |h| ensures Ip6Char(h[k]) {
        Ip6Range(h[k]);
      }
    } else {
      forall k | 0 <= k < |h| ensures NameChar(h[k]) || h[k] == '%' {
        NameRange(h[k]);
      }
    }
  }

  lemma AddressRead(cfg: Config, s: string)
    requires ProtocolAddr(cfg, s).ok
    ensures ReadHost(ProtocolAddr(cfg, s).value.host)
  {
    HostValid(ProtocolTag(cfg, s).rest);
    ValidIsRead(Host(ProtocolTag(cfg, s).rest).value);
  }

  lemma {:induction false} MoreRead(cfg: Config, s: string, got: seq<Address>)
    requires forall k :: 0 <= k < |got| ==> ReadHost(got[k].host)
    ensures forall k :: 0 <= k < |MoreAddrs(cfg, s, got).value| ==> ReadHost(MoreAddrs(cfg, s, got).value[k].host)
    decreases |s|
  {
    if |s| > 1 && s[0] == ',' {
      var a := ProtocolAddr(cfg, s[1..]);
      AddrConsumes(cfg, s[1..]);
      if a.ok {
        AddressRead(cfg, s[1..]);
        MoreRead(cfg, a.rest, got + [a.value]);
      }
    }
  }

  /** For every configuration and every text, each host the parser yields is of one of the two kinds. */
  lemma OnlyHostsRead(cfg: Config, text: string)
    ensures forall k :: 0 <= k < |Parse(cfg, text).addresses| ==> ReadHost(Parse(cfg, text).addresses[k].host)
  {
    var s := UserPass(SkipScheme(text)).rest;
    var a := ProtocolAddr(cfg, s);
    if a.ok {
      AddressRead(cfg, s);
      MoreRead(cfg, a.rest, [a.value]);
    }
  }

  // ------------------------------------------------------------ the printed form, in letters

  lemma PrintedPorts()
    ensures PrintNat(5672) == "5672" && PrintNat(80) == "80"
  {
    assert PrintNat(5) == "5" && PrintNat(56) == "56" && PrintNat(567) == "567" && PrintNat(8) == "8";
  }

  /** An address without and with brackets. */
  lemma PrintedAddresses(a: Address, b: Address)
    requires a == Address("tcp", "a-b", 5672) && b == Address("ssl", "::1", 80)
    ensures PrintAddress(a) == "tcp:a-b:5672" && PrintAddress(b) == "ssl:[::1]:80"
  {
    PrintedPorts();
    assert b.host[0] == ':';
  }

  lemma PrintedTwo(a: Address, b: Address)
    ensures PrintAddresses([a, b]) == PrintAddress(a) + ("," + PrintAddress(b))
  {
    var none: seq<Address> := [];
    assert [a, b][1..] == [b] && [b][1..] == none && PrintMore(none) == "";
    assert PrintMore([b]) == "," + PrintAddress(b) + PrintMore(none);
    assert "," + PrintAddress(b) + "" == "," + PrintAddress(b);
  }

  /** The whole printed form: scheme, credentials and a list. */
  lemma PrintedExample(u: Url, a: Address, b: Address)
    requires a == Address("tcp", "a-b", 5672) && b == Address("ssl", "::1", 80) && u == Url("me", "pw", [a, b])
    ensures Print(u) == "amqp:me/pw@" + ("tcp:a-b:5672" + ("," + "ssl:[::1]:80"))
  {
    PrintedAddresses(a, b);
    PrintedTwo(a, b);
    assert PrintCredentials(u) == "me/pw@";
    assert SCHEME + PrintCredentials(u) == "amqp:me/pw@";
  }
}
