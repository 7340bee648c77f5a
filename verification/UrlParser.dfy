/**
  The recursive-descent parser with its cursor, and the printer with its loop. Every
  method is proved to recognise exactly what the rule of that name in UrlSyntax does, and
  to leave the cursor where that rule stops, also when it fails.
 */
module UrlParsing {
  import opened UrlSyntax

  lemma Drop(s: string, i: nat, k: nat)
    requires i + k <= |s|
    ensures s[i..][k..] == s[i + k..] && s[i..][..k] == s[i..i + k]
  {
  }

  lemma Slice(s: string, i: nat, j: nat, k: nat)
    requires i + k <= |s| && j <= k
    ensures s[i..][j..k] == s[i + j..i + k]
  {
  }

  /** One percent escape: the sign and up to two hexadecimal digits. */
  function EscapeSpan(s: string): (n: nat)
    ensures n <= |s| && n <= 3
  {
    if s == [] || s[0] != '%' then 0
    else if |s| == 1 || !IsHex(s[1]) then 1
    else if |s| == 2 || !IsHex(s[2]) then 2
    else 3
  }

  lemma HostSpanStep(s: string)
    ensures HostSpan(s) ==
            if s != [] && IsUnreserved(s[0]) then 1 + HostSpan(s[1..])
            else if EscapeSpan(s) == 3 then 3 + HostSpan(s[3..])
            else EscapeSpan(s)
  {
  }

  lemma HostSpanAt(text: string, i: nat)
    requires i <= |text|
    ensures i < |text| && IsUnreserved(text[i]) ==> HostSpan(text[i..]) == 1 + HostSpan(text[i + 1..])
    ensures !(i < |text| && IsUnreserved(text[i])) ==>
              HostSpan(text[i..]) == EscapeSpan(text[i..]) +
                                     if EscapeSpan(text[i..]) == 3 then HostSpan(text[i + 3..]) else 0
  {
    HostSpanStep(text[i..]);
    if i < |text| {
      Drop(text, i, 1);
    }
    if i + 3 <= |text| {
      Drop(text, i, 3);
    }
  }

  lemma TagAt(cfg: Config, text: string, i: nat, j: nat)
    requires i <= |text| && j == i + Find(text[i..|text|], ':') <= |text|
    ensures ProtocolTag(cfg, text[i..]) ==
            if j < |text| && text[i..j] in cfg.tags then Parsed(true, text[i..j], text[j + 1..])
            else Parsed(false, cfg.defaultProtocol, text[i..])
  {
    assert text[i..|text|] == text[i..];
    if j < |text| {
      Drop(text, i, j - i);
      Drop(text, i, j + 1 - i);
    }
  }

  lemma UserPassAt(s: string, at: nat, slash: nat)
    requires at == Find(s, '@') < |s| && slash == Find(s[..at], '/')
    ensures UserPass(s) == Credentials(s[..slash], s[(if slash == at then slash else slash + 1)..at], s[at + 1..])
  {
  }

  lemma UserPassSlices(text: string, i: nat, at: nat, slash: nat)
    requires i <= at < |text| && at == i + Find(text[i..], '@') && slash == i + Find(text[i..at], '/')
    ensures UserPass(text[i..]) ==
            Credentials(text[i..slash], text[(if slash == at then slash else slash + 1)..at], text[at + 1..])
  {
    UserPassAt(text[i..], at - i, slash - i) by {
      Drop(text, i, at - i);
    }
    CredentialSlices(text, i, at, slash);
  }

  lemma CredentialSlices(text: string, i: nat, at: nat, slash: nat)
    requires i <= slash <= at < |text|
    ensures text[i..][..slash - i] == text[i..slash] && text[i..][at - i + 1..] == text[at + 1..]
    ensures var pass := if slash == at then slash else slash + 1; text[i..][pass - i..at - i] == text[pass..at]
  {
    Drop(text, i, slash - i);
    Drop(text, i, at + 1 - i);
    Slice(text, i, (if slash == at then slash else slash + 1) - i, at - i);
  }

  /** The list rule after its first address. */
  lemma ListStarts(cfg: Config, s: string)
    requires ProtocolAddr(cfg, s).ok
    ensures AddrList(cfg, s) == MoreAddrs(cfg, ProtocolAddr(cfg, s).rest, [] + [ProtocolAddr(cfg, s).value])
  {
    var a := ProtocolAddr(cfg, s).value;
    assert [] + [a] == [a];
  }

  /** One turn of its loop. */
  lemma ListGoesOn(cfg: Config, s: string, got: seq<Address>)
    requires s != []
    ensures s[0] != ',' ==> MoreAddrs(cfg, s, got) == Parsed(true, got, s)
    ensures s[0] == ',' && |s| == 1 ==> MoreAddrs(cfg, s, got) == Parsed(false, got, s[1..])
    ensures s[0] == ',' && |s| > 1 ==>
              var a := ProtocolAddr(cfg, s[1..]);
              |a.rest| < |s| &&
              MoreAddrs(cfg, s, got) ==
              if a.ok then MoreAddrs(cfg, a.rest, got + [a.value]) else Parsed(false, got, a.rest)
  {
    if |s| > 1 { AddrConsumes(cfg, s[1..]); }
  }

  class UrlParser {
    const cfg: Config
    const text: string
    var i: nat
    var url: Url

    ghost predicate Valid()
      reads this
    {
      i <= |text|
    }

    /** The text still to be read. */
    ghost function Rest(): string
      reads this
      requires Valid()
    {
      text[i..]
    }

    constructor (cfg: Config, text: string)
      ensures Valid() && Rest() == text && this.text == text && this.cfg == cfg && url == Url("", "", [])
    {
      this.cfg, this.text, i, url := cfg, text, 0, Url("", "", []);
    }

    method Literal(s: string) returns (ok: bool)
      requires Valid()
      modifies `i
      ensures Valid() && (ok <==> s <= old(Rest()))
      ensures i == if ok then old(i) + |s| else old(i)
    {
      if |s| <= |text| - i && text[i..i + |s|] == s {
        Drop(text, i, |s|);
        i := i + |s|;
        return true;
      }
      ok := false;
    }

    method OneOf(p: char -> bool) returns (ok: bool)
      requires Valid()
      modifies `i
      ensures Valid() && (ok <==> old(i) < |text| && p(text[old(i)]))
      ensures i == if ok then old(i) + 1 else old(i)
    {
      ok := i < |text| && p(text[i]);
      if ok {
        i := i + 1;
      }
    }

    method PctEncoded() returns (ok: bool)
      requires Valid()
      modifies `i
      ensures Valid() && i == old(i) + EscapeSpan(old(Rest())) && (ok <==> EscapeSpan(old(Rest())) == 3)
    {
      ghost var s := Rest();
      ok := Literal("%");
      if ok {
        assert s[0] == '%';
        ok := OneOf(IsHex);
      }
      if ok {
        ok := OneOf(IsHex);
      }
    }

    /** Consumes characters of the class for as long as there are any. */
    method SkipClass(k: CharClass)
      requires Valid()
      modifies `i
      ensures Valid() && i == old(i) + Span(k, old(Rest()))
    {
      ghost var start := i;
      var more := true;
      while more
        invariant start <= i <= |text|
        invariant Span(k, text[start..]) == i - start + if more then Span(k, text[i..]) else 0
        decreases |text| - i, more
      {
        more := OneOf(c => In(k, c));
        if more {
          Drop(text, i - 1, 1);
        }
      }
    }

    /** One turn of the host loop: an unreserved character or a percent escape. */
    method HostChar() returns (more: bool)
      requires Valid()
      modifies `i
      ensures Valid() && old(i) <= i && (more ==> old(i) < i)
      ensures HostSpan(old(Rest())) == i - old(i) + if more then HostSpan(Rest()) else 0
    {
      HostSpanAt(text, i);
      more := OneOf(IsUnreserved);
      if !more {
        more := PctEncoded();
      }
    }

    /** The host loop. */
    method SkipHost()
      requires Valid()
      modifies `i
      ensures Valid() && i == old(i) + HostSpan(old(Rest()))
    {
      var more := true;
      while more
        invariant Valid() && old(i) <= i
        invariant HostSpan(old(Rest())) == i - old(i) + if more then HostSpan(Rest()) else 0
        decreases |text| - i, more
      {
        more := HostChar();
      }
    }

    method Ip6() returns (ok: bool, h: string)
      requires Valid()
      modifies `i
      ensures Valid() && Parsed(ok, h, Rest()) == Ip6Literal(old(Rest()))
    {
      ghost var s := Rest();
      ok, h := false, "";
      var open := Literal("[");
      assert open <==> s != [] && s[0] == '[';
      if open {
        var start := i;
        Drop(text, start - 1, 1);
        SkipClass(Ip6Chars);
        var end := i;
        Drop(text, start - 1, 1 + end - start);
        assert s[1..1 + end - start] == text[start..end];
        if end - start < 2 {
          return;
        }
        var close := Literal("]");
        assert close <==> text[end..] != [] && text[end..][0] == ']';
        if close {
          Drop(text, end, 1);
          ok, h := true, text[start..end];
        }
      }
    }

    method HostRule() returns (ok: bool, h: string)
      requires Valid()
      modifies `i
      ensures Valid() && Parsed(ok, h, Rest()) == Host(old(Rest()))
    {
      ok, h := Ip6();
      if !ok {
        ok, h := NameRule();
      }
    }

    method NameRule() returns (ok: bool, h: string)
      requires Valid()
      modifies `i
      ensures Valid() && Parsed(ok, h, Rest()) == HostName(old(Rest()))
    {
      var start := i;
      SkipHost();
      Drop(text, start, i - start);
      ok, h := start != i, text[start..i];
    }

    method PortRule() returns (ok: bool, p: Port)
      requires Valid()
      modifies `i
      ensures Valid() && Parsed(ok, p, Rest()) == PortNumber(old(Rest()))
    {
      var start := i;
      SpanIn(Digits, text[start..]);
      SkipClass(Digits);
      Drop(text, start, i - start);
      ok := start != i && Value(text[start..i]) < 0x1_0000;
      p := if ok then Value(text[start..i]) else 0;
    }

    /** A port is read only after a colon. */
    method OptionalPortRule() returns (ok: bool, p: Port)
      requires Valid()
      modifies `i
      ensures Valid() && Parsed(ok, p, Rest()) == OptionalPort(old(Rest()))
    {
      ghost var s := Rest();
      ok, p := true, AMQP_PORT;
      var colon := Literal(":");
      assert colon <==> s != [] && s[0] == ':';
      if colon {
        Drop(text, i - 1, 1);
        ok, p := PortRule();
      }
    }

    method FindChar(c: char, from: nat, to: nat) returns (j: nat)
      requires from <= to <= |text|
      ensures j == from + Find(text[from..to], c) <= to
    {
      j := from;
      while j < to && text[j] != c
        invariant from <= j <= to
        invariant Find(text[from..to], c) == j - from + Find(text[j..to], c)
      {
        assert text[j..to][1..] == text[j + 1..to];
        j := j + 1;
      }
    }

    method TagRule() returns (protocol: string)
      requires Valid()
      modifies `i
      ensures Valid() && protocol == ProtocolTag(cfg, old(Rest())).value && Rest() == ProtocolTag(cfg, old(Rest())).rest
    {
      protocol := cfg.defaultProtocol;
      var j := FindChar(':', i, |text|);
      TagAt(cfg, text, i, j);
      if j != |text| {
        var tag := text[i..j];
        if tag in cfg.tags {
          i := j + 1;
          protocol := tag;
        }
      }
    }

    method AddrRule() returns (ok: bool)
      requires Valid()
      modifies `i, `url
      ensures Valid() && ok == ProtocolAddr(cfg, old(Rest())).ok && Rest() == ProtocolAddr(cfg, old(Rest())).rest
      ensures !ok ==> url == old(url)
      ensures ok ==> url == old(url).(addresses := old(url.addresses) + [ProtocolAddr(cfg, old(Rest())).value])
    {
      var protocol := TagRule();
      var host;
      ok, host := HostRule();
      if !ok {
        return;
      }
      var port;
      ok, port := OptionalPortRule();
      if ok {
        url := url.(addresses := url.addresses + [Address(protocol, host, port)]);
      }
    }

    /** One turn of the list loop: a separator and an item, or the end of the list. */
    method SeparatorAndItem() returns (more: bool, ok: bool)
      requires Valid() && i < |text|
      modifies `i, `url
      ensures Valid() && url == old(url).(addresses := url.addresses)
      ensures more ==> ok && old(i) < i &&
                       MoreAddrs(cfg, old(Rest()), old(url.addresses)) == MoreAddrs(cfg, Rest(), url.addresses)
      ensures !more ==> MoreAddrs(cfg, old(Rest()), old(url.addresses)) == Parsed(ok, url.addresses, Rest())
    {
      ghost var r := Rest();
      ListGoesOn(cfg, r, url.addresses);
      var comma := Literal(",");
      assert comma <==> r[0] == ',';
      if !comma {
        return false, true;
      }
      Drop(text, i - 1, 1);
      if i == |text| {
        return false, false;
      }
      ok := AddrRule();
      more := ok;
    }

    /** The list loop. */
    method MoreItems() returns (ok: bool)
      requires Valid()
      modifies `i, `url
      ensures Valid() && url == old(url).(addresses := url.addresses)
      ensures MoreAddrs(cfg, old(Rest()), old(url.addresses)) == Parsed(ok, url.addresses, Rest())
    {
      ghost var all := MoreAddrs(cfg, Rest(), url.addresses);
      ghost var was := url;
      ok := true;
      var more := true;
      while more && i < |text|
        invariant Valid() && url == was.(addresses := url.addresses)
        invariant more ==> ok && all == MoreAddrs(cfg, Rest(), url.addresses)
        invariant !more ==> all == Parsed(ok, url.addresses, Rest())
        decreases more, |text| - i
      {
        more, ok := SeparatorAndItem();
      }
    }

    method ListRule() returns (ok: bool)
      requires Valid() && url.addresses == []
      modifies `i, `url
      ensures Valid() && url == old(url).(addresses := url.addresses)
      ensures AddrList(cfg, old(Rest())) == Parsed(ok, url.addresses, Rest())
    {
      ghost var s := Rest();
      ok := AddrRule();
      if !ok {
        return true;
      }
      ListStarts(cfg, s);
      ok := MoreItems();
    }

    /** The scheme is optional. */
    method SchemeRule()
      requires Valid()
      modifies `i
      ensures Valid() && Rest() == SkipScheme(old(Rest()))
    {
      ghost var at := i;
      var ok := Literal(SCHEME);
      if ok {
        Drop(text, at, |SCHEME|);
      }
    }

    method UserPassRule()
      requires Valid() && url == Url("", "", [])
      modifies `i, `url
      ensures Valid() && url.addresses == []
      ensures UserPass(old(Rest())) == Credentials(url.user, url.pass, Rest())
    {
      var at := FindChar('@', i, |text|);
      assert text[i..|text|] == text[i..];
      if at == |text| {
        return;
      }
      var slash := FindChar('/', i, at);
      UserPassSlices(text, i, at, slash);
      var pass := if slash == at then slash else slash + 1;
      url := Url(text[i..slash], text[pass..at], []);
      i := at + 1;
    }
  }

  /** Url::parseNoThrow into a fresh Url. */
  method ParseNoThrow(cfg: Config, text: string) returns (url: Url)
    ensures url == Parse(cfg, text)
  {
    var p := new UrlParser(cfg, text);
    p.SchemeRule();
    ghost var s := p.Rest();
    p.UserPassRule();
    ghost var c := Credentials(p.url.user, p.url.pass, p.Rest());
    var ok := p.ListRule();
    url := p.url;
    if !ok || p.i != |text| {
      url := url.(addresses := []);
    }
    ParseInSteps(cfg, text, s, c, ok, p.url.addresses, p.i);
  }

  lemma ParseInSteps(cfg: Config, text: string, s: string, c: Credentials, ok: bool, addresses: seq<Address>, i: nat)
    requires s == SkipScheme(text) && c == UserPass(s)
    requires i <= |text| && AddrList(cfg, c.rest) == Parsed(ok, addresses, text[i..])
    ensures Parse(cfg, text) == Url(c.user, c.pass, if ok && i == |text| then addresses else [])
  {
    assert text[i..] == [] <==> i == |text|;
  }

  /** operator<< for Url: the first address, then each further one after a comma. */
  method PrintUrl(url: Url) returns (out: string)
    ensures out == Print(url)
  {
    out := SCHEME;
    if url.user != "" { out := out + url.user; }
    if url.pass != "" { out := out + "/" + url.pass; }
    if !(url.user == "" && url.pass == "") { out := out + "@"; }
    CredentialsPrinted(url, out);
    out := PrintList(out, url.addresses);
  }

  /** The printing loop: the first address, then each of the others after a comma. */
  method PrintList(front: string, addresses: seq<Address>) returns (out: string)
    ensures out == front + PrintAddresses(addresses)
  {
    out := front;
    if addresses == [] {
      assert front + "" == front;
      return;
    }
    out := out + PrintAddress(addresses[0]);
    var k := 1;
    AddressesPrinted(front, addresses);
    while k < |addresses|
      invariant 1 <= k <= |addresses|
      invariant out + PrintMore(addresses[k..]) == front + PrintAddresses(addresses)
    {
      MorePrinted(addresses, k, out);
      out := out + "," + PrintAddress(addresses[k]);
      k := k + 1;
    }
    assert out + "" == out;
  }

  lemma CredentialsPrinted(url: Url, out: string)
    requires out == (SCHEME + url.user + (if url.pass != "" then "/" + url.pass else "")) +
                    (if url.user == "" && url.pass == "" then "" else "@")
    ensures out == SCHEME + PrintCredentials(url)
  {
  }

  lemma MorePrinted(addresses: seq<Address>, k: nat, out: string)
    requires k < |addresses|
    ensures out + PrintMore(addresses[k..]) == out + "," + PrintAddress(addresses[k]) + PrintMore(addresses[k + 1..])
  {
    assert addresses[k..][1..] == addresses[k + 1..];
    var a, more := PrintAddress(addresses[k]), PrintMore(addresses[k + 1..]);
    assert out + ("," + a + more) == out + "," + a + more;
  }

  lemma AddressesPrinted(front: string, addresses: seq<Address>)
    requires addresses != []
    ensures front + PrintAddress(addresses[0]) + PrintMore(addresses[1..]) == front + PrintAddresses(addresses)
  {
    var a, more := PrintAddress(addresses[0]), PrintMore(addresses[1..]);
    assert front + a + more == front + (a + more);
  }
}
