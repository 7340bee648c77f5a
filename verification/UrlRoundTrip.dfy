/**
  What the parser makes of the pieces of a printed URL, and what hosts and credentials it can produce.
 */
module UrlRoundTrip {
  import opened UrlSyntax

  /** A protocol that a text can name: the tag rule looks no further than a colon. */
  predicate Nameable(cfg: Config, p: string) {
    p in cfg.tags && ':' !in p
  }

  /** Unreserved characters and percent signs; what follows a percent sign, up to two characters, is hexadecimal. */
  predicate NameChars(h: string) {
    forall k :: 0 <= k < |h| ==>
      && (IsUnreserved(h[k]) || h[k] == '%')
      && (h[k] == '%' && k + 1 < |h| ==> IsHex(h[k + 1]))
      && (h[k] == '%' && k + 2 < |h| ==> IsHex(h[k + 2]))
  }

  predicate ValidHost(h: string) {
    if ':' in h then |h| >= 2 && forall k :: 0 <= k < |h| ==> In(Ip6Chars, h[k])
    else h != "" && NameChars(h)
  }

  predicate ValidAddress(cfg: Config, a: Address) {
    Nameable(cfg, a.protocol) && ValidHost(a.host)
  }

  predicate WellFormed(cfg: Config, u: Url) {
    && '/' !in u.user && '@' !in u.user && '@' !in u.pass
    && forall k :: 0 <= k < |u.addresses| ==> ValidAddress(cfg, u.addresses[k])
  }

  // ------------------------------------------------------------ scanning

  lemma {:induction false} SpanExact(k: CharClass, a: string, b: string)
    requires forall i :: 0 <= i < |a| ==> In(k, a[i])
    requires b == [] || !In(k, b[0])
    ensures Span(k, a + b) == |a|
  {
    if a == [] {
      assert a + b == b;
    } else {
      assert (a + b)[1..] == a[1..] + b;
      SpanExact(k, a[1..], b);
    }
  }

  lemma {:induction false} FindExact(a: string, c: char, b: string)
    requires c !in a
    ensures Find(a + [c] + b, c) == |a|
  {
    if a != [] {
      assert (a + [c] + b)[1..] == a[1..] + [c] + b;
      FindExact(a[1..], c, b);
    }
  }

  lemma {:induction false} FindNone(s: string, c: char)
    requires c !in s
    ensures Find(s, c) == |s|
  {
    if s != [] { FindNone(s[1..], c); }
  }

  /** What ends a host name: nothing that could continue it. */
  predicate Stops(rest: string) {
    rest == [] || (!IsUnreserved(rest[0]) && rest[0] != '%')
  }

  lemma NameTail(h: string, k: nat)
    requires NameChars(h) && k <= |h|
    ensures NameChars(h[k..])
  {
    var t := h[k..];
    forall i | 0 <= i < |t|
      ensures IsUnreserved(t[i]) || t[i] == '%'
      ensures t[i] == '%' && i + 1 < |t| ==> IsHex(t[i + 1])
      ensures t[i] == '%' && i + 2 < |t| ==> IsHex(t[i + 2])
    {
      assert t[i] == h[k + i];
    }
  }

  lemma {:induction false} HostSpanExact(h: string, rest: string)
    requires NameChars(h) && Stops(rest)
    ensures HostSpan(h + rest) == |h|
  {
    var s := h + rest;
    if h == [] {
      assert s == rest;
    } else if IsUnreserved(h[0]) {
      assert s[1..] == h[1..] + rest;
      NameTail(h, 1);
      HostSpanExact(h[1..], rest);
    } else if |h| >= 3 {
      assert s[3..] == h[3..] + rest && s[1] == h[1] && s[2] == h[2];
      NameTail(h, 3);
      HostSpanExact(h[3..], rest);
    } else {
      assert |h| == 2 ==> s[1] == h[1] && (rest != [] ==> s[2] == rest[0]);
      assert |h| == 1 ==> (rest != [] ==> s[1] == rest[0]);
    }
  }

  lemma {:induction false} HostSpanName(s: string)
    ensures NameChars(s[..HostSpan(s)])
  {
    var n := HostSpan(s);
    if s != [] && IsUnreserved(s[0]) {
      HostSpanName(s[1..]);
      assert s[..n] == [s[0]] + s[1..][..n - 1];
      NameCons(s[0], s[1..][..n - 1]);
    } else if n > 2 {
      HostSpanName(s[3..]);
      assert s[..n] == s[..3] + s[3..][..n - 3];
      NameEscape(s[1], s[2], s[3..][..n - 3]);
      assert ['%', s[1], s[2]] == s[..3];
    }
  }

  lemma NameCons(c: char, t: string)
    requires IsUnreserved(c) && NameChars(t)
    ensures NameChars([c] + t)
  {
    var h := [c] + t;
    assert forall i :: 1 <= i < |h| ==> h[i] == t[i - 1];
  }

  lemma NameEscape(x: char, y: char, t: string)
    requires IsHex(x) && IsHex(y) && NameChars(t)
    ensures NameChars(['%', x, y] + t)
  {
    NameCons(y, t);
    NameCons(x, [y] + t);
    var h := ['%', x, y] + t;
    assert h == ['%'] + ([x] + ([y] + t));
    assert forall i :: 1 <= i < |h| ==> h[i] == ([x] + ([y] + t))[i - 1];
  }

  lemma {:induction false} ValuePrinted(n: nat)
    ensures Value(PrintNat(n)) == n
  {
    if n >= 10 {
      ValuePrinted(n / 10);
      var s := PrintNat(n);
      assert s[..|s| - 1] == PrintNat(n / 10);
    } else {
      assert PrintNat(n)[..0] == [];
    }
  }

  // ------------------------------------------------------------ a printed address parses back

  lemma PrintedPort(p: Port, rest: string)
    requires rest == [] || rest[0] == ','
    ensures PortNumber(PrintNat(p) + rest) == Parsed(true, p, rest)
  {
    var s := PrintNat(p) + rest;
    SpanExact(Digits, PrintNat(p), rest);
    ValuePrinted(p);
    assert s[..|PrintNat(p)|] == PrintNat(p) && s[|PrintNat(p)|..] == rest;
  }

  lemma PrintedName(h: string, rest: string)
    requires h != "" && NameChars(h) && Stops(rest)
    ensures Host(h + rest) == Parsed(true, h, rest)
  {
    var s := h + rest;
    assert s[0] == h[0] && s[0] != '[';
    HostSpanExact(h, rest);
    assert s[..|h|] == h && s[|h|..] == rest;
  }

  lemma PrintedIp6(h: string, rest: string)
    requires |h| >= 2 && forall k :: 0 <= k < |h| ==> In(Ip6Chars, h[k])
    ensures Host("[" + h + "]" + rest) == Parsed(true, h, rest)
  {
    var s := "[" + h + "]" + rest;
    assert s[1..] == h + ("]" + rest);
    SpanExact(Ip6Chars, h, "]" + rest);
    assert s[1..1 + |h|] == h && s[1 + |h|..] == "]" + rest;
    assert ("]" + rest)[1..] == rest;
  }

  lemma Assoc(a: string, b: string, c: string)
    ensures a + b + c == a + (b + c)
  {
  }

  /** A tag, a host and a port in that order, whatever the host looks like in print. */
  lemma AddressStep(cfg: Config, p: string, printed: string, h: string, digits: string, port: Port, rest: string)
    requires p in cfg.tags && ':' !in p
    requires Host(printed + (":" + (digits + rest))) == Parsed(true, h, ":" + (digits + rest))
    requires PortNumber(digits + rest) == Parsed(true, port, rest)
    ensures ProtocolAddr(cfg, p + ":" + (printed + (":" + (digits + rest)))) == Parsed(true, Address(p, h, port), rest)
  {
    var after := printed + (":" + (digits + rest));
    var s := p + ":" + after;
    FindExact(p, ':', after);
    assert s[..|p|] == p && s[|p| + 1..] == after;
    assert (":" + (digits + rest))[1..] == digits + rest;
  }

  function PrintedHost(h: string): string {
    if ':' in h then "[" + h + "]" else h
  }

  lemma AddressShape(a: Address, rest: string)
    ensures PrintAddress(a) + rest ==
            a.protocol + ":" + (PrintedHost(a.host) + (":" + (PrintNat(a.port) + rest)))
  {
    var digits := PrintNat(a.port);
    if ':' in a.host {
      assert a.protocol + ":[" + a.host + "]:" + digits + rest ==
             a.protocol + ":" + ("[" + a.host + "]" + (":" + (digits + rest)));
    } else {
      assert a.protocol + ":" + a.host + ":" + digits + rest ==
             a.protocol + ":" + (a.host + (":" + (digits + rest)));
    }
  }

  lemma PrintedAddress(cfg: Config, a: Address, rest: string)
    requires ValidAddress(cfg, a) && (rest == [] || rest[0] == ',')
    ensures ProtocolAddr(cfg, PrintAddress(a) + rest) == Parsed(true, a, rest)
  {
    var digits := PrintNat(a.port);
    AddressShape(a, rest);
    PrintedPort(a.port, rest);
    if ':' in a.host { PrintedIp6(a.host, ":" + (digits + rest)); } else { PrintedName(a.host, ":" + (digits + rest)); }
    AddressStep(cfg, a.protocol, PrintedHost(a.host), a.host, digits, a.port, rest);
  }

  lemma AfterComma(t: string, more: string)
    requires t != ""
    ensures var s := "," + t + more; |s| > 1 && s[0] == ',' && s[1..] == t + more
  {
  }

  lemma EmptyList(cfg: Config)
    ensures AddrList(cfg, "") == Parsed(true, [], "")
  {
    assert Find("", ':') == 0;
  }

  // ------------------------------------------------------------ credentials

  /** With no password there is no slash before the at-sign; with one, the first slash comes before it. */
  lemma SplitCredentials(user: string, pass: string, rest: string)
    requires '/' !in user && '@' !in user && '@' !in pass
    ensures UserPass(user + ['@'] + rest) == Credentials(user, "", rest)
    ensures UserPass(user + ['/'] + pass + ['@'] + rest) == Credentials(user, pass, rest)
  {
    var s := user + ['@'] + rest;
    FindExact(user, '@', rest);
    assert s[..|user|] == user && s[|user| + 1..] == rest;
    FindNone(user, '/');
    var front := user + ['/'] + pass;
    var t := front + ['@'] + rest;
    FindExact(front, '@', rest);
    assert t[..|front|] == front && t[|front| + 1..] == rest;
    FindExact(user, '/', pass);
    assert t[..|user|] == user && t[|user| + 1..|front|] == pass;
  }

  lemma CredentialsShape(u: Url, rest: string)
    ensures PrintCredentials(u) + rest ==
            if u.user == "" && u.pass == "" then rest
            else if u.pass == "" then u.user + ['@'] + rest
            else u.user + ['/'] + u.pass + ['@'] + rest
  {
    if u.pass != "" {
      Assoc(u.user, "/", u.pass);
    }
  }

  // ------------------------------------------------------------ the parser yields well-formed URLs

  lemma HostValid(s: string)
    requires Host(s).ok
    ensures ValidHost(Host(s).value)
  {
    var ip6 := Ip6Literal(s);
    if ip6.ok {
      SpanIn(Ip6Chars, s[1..]);
      Ip6WithoutColon(ip6.value);
    } else {
      HostSpanName(ip6.rest);
    }
  }

  /** A bracketed host with no colon in it is also a plain host name. */
  lemma Ip6WithoutColon(h: string)
    requires |h| >= 2 && forall k :: 0 <= k < |h| ==> In(Ip6Chars, h[k])
    ensures ValidHost(h)
  {
    if ':' !in h {
      assert forall k :: 0 <= k < |h| ==> h[k] in h;
    }
  }

  lemma AddressValid(cfg: Config, s: string)
    requires Nameable(cfg, cfg.defaultProtocol) && ProtocolAddr(cfg, s).ok
    ensures ValidAddress(cfg, ProtocolAddr(cfg, s).value)
  {
    HostValid(ProtocolTag(cfg, s).rest);
  }

  lemma {:induction false} MoreValid(cfg: Config, s: string, got: seq<Address>)
    requires Nameable(cfg, cfg.defaultProtocol) && forall k :: 0 <= k < |got| ==> ValidAddress(cfg, got[k])
    ensures forall k :: 0 <= k < |MoreAddrs(cfg, s, got).value| ==> ValidAddress(cfg, MoreAddrs(cfg, s, got).value[k])
    decreases |s|
  {
    if |s| > 1 && s[0] == ',' {
      var a := ProtocolAddr(cfg, s[1..]);
      AddrConsumes(cfg, s[1..]);
      if a.ok {
        AddressValid(cfg, s[1..]);
        MoreValid(cfg, a.rest, got + [a.value]);
      }
    }
  }

  /** Whatever the text, what the parser leaves in a fresh Url is well-formed if the default can be named. */
  lemma ParsedIsWellFormed(cfg: Config, text: string)
    requires Nameable(cfg, cfg.defaultProtocol)
    ensures WellFormed(cfg, Parse(cfg, text))
  {
    var c := UserPass(SkipScheme(text));
    var a := ProtocolAddr(cfg, c.rest);
    if a.ok {
      AddressValid(cfg, c.rest);
      MoreValid(cfg, a.rest, [a.value]);
    }
  }

  // ------------------------------------------------------------ the printed text

  lemma PrintedScheme(t: string)
    ensures SkipScheme(SCHEME + t) == t
  {
    var s := SCHEME + t;
    assert s[..|SCHEME|] == SCHEME && s[|SCHEME|..] == t;
  }

  lemma PrintShape(u: Url)
    ensures SkipScheme(Print(u)) == PrintCredentials(u) + PrintAddresses(u.addresses)
  {
    Assoc(SCHEME, PrintCredentials(u), PrintAddresses(u.addresses));
    PrintedScheme(PrintCredentials(u) + PrintAddresses(u.addresses));
  }
}
