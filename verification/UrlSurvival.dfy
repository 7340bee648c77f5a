/**
  Exactly which URLs survive being printed and parsed, for every configuration, and exactly which
  configurations let every text survive being parsed, printed and parsed again.
 */
module UrlSurvival {
  import opened UrlSyntax
  import opened UrlRoundTrip
  import opened UrlStops

  // ------------------------------------------------------------ one address

  /** A printed address with `d` where its protocol should be. */
  function Shown(d: string, a: Address): string {
    d + ":" + (PrintedHost(a.host) + (":" + PrintNat(a.port)))
  }

  /** Where the colon before the port stands in a shown address. */
  function PortColon(d: string, a: Address): nat {
    |d| + 1 + |PrintedHost(a.host)|
  }

  /** What the tag rule would look up. */
  function FirstTag(d: string): string {
    d[..Find(d, ':')]
  }

  /**
    The one way to be read back without being named: a text that begins like an IPv6 literal and breaks
    off at the host is dropped by the host rule, and the default protocol is assumed.
   */
  predicate Swallowed(cfg: Config, d: string, h: string) {
    && d != "" && d[0] == '[' && (forall k :: 1 <= k < |d| ==> In(Ip6Chars, d[k]))
    && FirstTag(d) !in cfg.tags
    && h != "" && NameChars(h) && !In(Ip6Chars, h[0])
  }

  /** When the address rule reads `d`, a host and a port as a given address. */
  predicate Reads(cfg: Config, d: string, a: Address) {
    || (Nameable(cfg, d) && a.protocol == d && ValidHost(a.host))
    || (a.protocol == cfg.defaultProtocol && Swallowed(cfg, d, a.host))
  }

  lemma ShownShape(d: string, a: Address, rest: string)
    requires rest == "" || rest[0] == ','
    ensures var s := Shown(d, a) + rest; var colon := PortColon(d, a); var end := colon + 1 + |PrintNat(a.port)|;
            && Shape(s, colon, end) && s[end..] == rest
            && s[colon..] == ":" + (PrintNat(a.port) + rest)
  {
  }

  lemma ShownFront(d: string, a: Address, rest: string)
    ensures var s := Shown(d, a) + rest;
            && |d| < PortColon(d, a) < |s| && s[..|d|] == d && s[|d|] == ':'
            && s[|d| + 1..PortColon(d, a)] == PrintedHost(a.host)
            && s == d + ":" + (PrintedHost(a.host) + (":" + (PrintNat(a.port) + rest)))
  {
  }

  lemma {:induction false} FindPrefix(d: string, after: string)
    ensures Find(d + ":" + after, ':') == Find(d, ':')
  {
    if d != "" && d[0] != ':' {
      assert (d + ":" + after)[1..] == d[1..] + ":" + after;
      FindPrefix(d[1..], after);
    }
  }

  /** A host read from the front that ends at the port's colon can only have swallowed what stands before it. */
  lemma OnlySwallowed(d: string, a: Address, rest: string)
    requires rest == "" || rest[0] == ','
    requires var s := Shown(d, a) + rest; Host(s) == Parsed(true, a.host, s[PortColon(d, a)..])
    ensures d != "" && d[0] == '[' && (forall k :: 1 <= k < |d| ==> In(Ip6Chars, d[k]))
    ensures a.host != "" && NameChars(a.host) && !In(Ip6Chars, a.host[0])
  {
    var s := Shown(d, a) + rest;
    ShownFront(d, a, rest);
    if s[0] != '[' {
      FrontHost(s, |d|);
    } else {
      BracketHost(s);
      BracketOnly(d, a, rest, Span(Ip6Chars, s[1..]));
    }
  }

  lemma FrontHost(s: string, colon: nat)
    requires colon < |s| && s[colon] == ':' && s[0] != '['
    ensures |Host(s).rest| >= |s| - colon
  {
    NameStops(s, colon);
  }

  lemma BracketOnly(d: string, a: Address, rest: string, n: nat)
    requires rest == "" || rest[0] == ','
    requires var s := Shown(d, a) + rest;
             && s != "" && s[0] == '[' && n == Span(Ip6Chars, s[1..])
             && Parsed(true, a.host, s[PortColon(d, a)..]) ==
                (if 2 <= n < |s| - 1 && s[1 + n] == ']' then Parsed(true, s[1..1 + n], s[2 + n..])
                 else HostName(s[1 + n..]))
    ensures d != "" && d[0] == '[' && (forall k :: 1 <= k < |d| ==> In(Ip6Chars, d[k]))
    ensures a.host != "" && NameChars(a.host) && !In(Ip6Chars, a.host[0])
  {
    var s := Shown(d, a) + rest;
    ShownShape(d, a, rest);
    Ip6Stops(s, PortColon(d, a), PortColon(d, a) + 1 + |PrintNat(a.port)|);
    if 2 <= n < |s| - 1 && s[1 + n] == ']' {
      NotLiteral(d, a, rest, n);
    } else {
      BracketSwallows(d, a, rest, n);
    }
  }

  /** A bracketed literal that is the host itself ends elsewhere. */
  lemma NotLiteral(d: string, a: Address, rest: string, n: nat)
    requires 2 <= n < |Shown(d, a) + rest| - 1 && (Shown(d, a) + rest)[1..1 + n] == a.host
    ensures 2 + n != PortColon(d, a)
  {
    var s := Shown(d, a) + rest;
    ShownFront(d, a, rest);
    assert a.host[0] == s[1] && |a.host| == n;
    assert |d| == 1 ==> s[1] == ':';
  }

  lemma BracketSwallows(d: string, a: Address, rest: string, n: nat)
    requires var s := Shown(d, a) + rest;
             && 1 + n <= |s| && s[0] == '[' && (forall k :: 1 <= k < 1 + n ==> In(Ip6Chars, s[k]))
             && (1 + n < |s| ==> !In(Ip6Chars, s[1 + n]))
             && HostName(s[1 + n..]) == Parsed(true, a.host, s[PortColon(d, a)..])
    ensures d != "" && d[0] == '[' && (forall k :: 1 <= k < |d| ==> In(Ip6Chars, d[k]))
    ensures a.host != "" && NameChars(a.host) && !In(Ip6Chars, a.host[0])
  {
    var s, h := Shown(d, a) + rest, a.host;
    var t := s[1 + n..];
    ShownFront(d, a, rest);
    HostSpanName(t);
    NoColon(h);
    assert |t| - |h| == |s| - PortColon(d, a);
    assert n == |d|;
    assert h[0] == t[0] == s[1 + n];
    assert forall k :: 0 <= k < |d| ==> s[k] == d[k];
  }

  // ------------------------------------------------------------ an address is read back exactly when it can be

  lemma ReadsSwallowed(cfg: Config, d: string, a: Address, rest: string)
    requires a.protocol == cfg.defaultProtocol && Swallowed(cfg, d, a.host) && (rest == "" || rest[0] == ',')
    ensures ProtocolAddr(cfg, Shown(d, a) + rest) == Parsed(true, a, rest)
  {
    var s, after := Shown(d, a) + rest, ":" + (PrintNat(a.port) + rest);
    NoColon(a.host);
    ShownFront(d, a, rest);
    FindPrefix(d, a.host + after);
    assert s[..Find(d, ':')] == FirstTag(d);
    SwallowedHost(d, a.host, after);
    PrintedPort(a.port, rest);
    assert after[1..] == PrintNat(a.port) + rest;
  }

  lemma SwallowedHost(d: string, h: string, after: string)
    requires d != "" && d[0] == '[' && forall k :: 1 <= k < |d| ==> In(Ip6Chars, d[k])
    requires h != "" && NameChars(h) && !In(Ip6Chars, h[0]) && after != "" && after[0] == ':'
    ensures Host(d + ":" + (h + after)) == Parsed(true, h, after)
  {
    var s := d + ":" + (h + after);
    var inside := d[1..] + ":";
    assert s[1..] == inside + (h + after);
    SpanExact(Ip6Chars, inside, h + after);
    BracketHost(s);
    NoColon(h);
    assert s[1 + |d|] == h[0] && h[0] in h && s[1 + |d|..] == h + after;
    HostSpanExact(h, after);
    assert (h + after)[..|h|] == h && (h + after)[|h|..] == after;
  }

  lemma ReadsNamed(cfg: Config, d: string, a: Address, rest: string)
    requires Nameable(cfg, d) && a.protocol == d && ValidHost(a.host) && (rest == "" || rest[0] == ',')
    ensures ProtocolAddr(cfg, Shown(d, a) + rest) == Parsed(true, a, rest)
  {
    PrintedAddress(cfg, a, rest);
    AddressShape(a, rest);
    ShownFront(d, a, rest);
  }

  lemma ReadsForward(cfg: Config, d: string, a: Address, rest: string)
    requires Reads(cfg, d, a) && (rest == "" || rest[0] == ',')
    ensures ProtocolAddr(cfg, Shown(d, a) + rest) == Parsed(true, a, rest)
  {
    if a.protocol == cfg.defaultProtocol && Swallowed(cfg, d, a.host) {
      ReadsSwallowed(cfg, d, a, rest);
    } else {
      ReadsNamed(cfg, d, a, rest);
    }
  }

  lemma AddressHost(cfg: Config, s: string)
    requires ProtocolAddr(cfg, s).ok
    ensures ProtocolAddr(cfg, s).value.host == Host(ProtocolTag(cfg, s).rest).value
    ensures ProtocolAddr(cfg, s).value.protocol == ProtocolTag(cfg, s).value
  {
  }

  lemma ReadsBackward(cfg: Config, d: string, a: Address, rest: string)
    requires |d| <= |a.protocol| && (rest == "" || rest[0] == ',')
    requires ProtocolAddr(cfg, Shown(d, a) + rest) == Parsed(true, a, rest)
    ensures Reads(cfg, d, a)
  {
    var s, colon := Shown(d, a) + rest, PortColon(d, a);
    var tag := ProtocolTag(cfg, s);
    ShownFront(d, a, rest);
    FindPrefix(d, PrintedHost(a.host) + (":" + (PrintNat(a.port) + rest)));
    assert s[..Find(d, ':')] == FirstTag(d);
    AddressHost(cfg, s);
    AddressParts(cfg, s);
    HostValid(tag.rest);
    if !tag.ok {
      ShownShape(d, a, rest);
      HostThenPort(s, colon, colon + 1 + |PrintNat(a.port)|);
      OnlySwallowed(d, a, rest);
    } else {
      assert FirstTag(d) == a.protocol;
      assert FirstTag(d) == d;
    }
  }

  /** Both ways: the address rule reads the text as the address and stops at its end exactly when it can. */
  lemma ReadsExactly(cfg: Config, d: string, a: Address, rest: string)
    requires |d| <= |a.protocol| && (rest == "" || rest[0] == ',')
    ensures ProtocolAddr(cfg, Shown(d, a) + rest) == Parsed(true, a, rest) <==> Reads(cfg, d, a)
  {
    if Reads(cfg, d, a) {
      ReadsForward(cfg, d, a, rest);
    }
    if ProtocolAddr(cfg, Shown(d, a) + rest) == Parsed(true, a, rest) {
      ReadsBackward(cfg, d, a, rest);
    }
  }

  // ------------------------------------------------------------ a list of addresses

  /** The list rule from the start of an item. */
  function ItemsFrom(cfg: Config, s: string, got: seq<Address>): Parsed<seq<Address>> {
    var a := ProtocolAddr(cfg, s);
    if !a.ok then Parsed(false, got, a.rest) else MoreAddrs(cfg, a.rest, got + [a.value])
  }

  lemma MoreIsItems(cfg: Config, s: string, got: seq<Address>)
    ensures s == "" || s[0] != ',' ==> MoreAddrs(cfg, s, got) == Parsed(true, got, s)
    ensures |s| > 1 && s[0] == ',' ==> MoreAddrs(cfg, s, got) == ItemsFrom(cfg, s[1..], got)
  {
  }

  lemma {:induction false} MoreKeeps(cfg: Config, s: string, got: seq<Address>)
    ensures got <= MoreAddrs(cfg, s, got).value
    decreases |s|
  {
    if |s| > 1 && s[0] == ',' {
      var a := ProtocolAddr(cfg, s[1..]);
      AddrConsumes(cfg, s[1..]);
      if a.ok {
        MoreKeeps(cfg, a.rest, got + [a.value]);
      }
    }
  }

  lemma PrintedIsShown(a: Address)
    ensures PrintAddress(a) == Shown(a.protocol, a) && Shown(a.protocol, a) != ""
  {
    AddressShape(a, "");
    assert PrintAddress(a) + "" == PrintAddress(a);
    assert PrintNat(a.port) + "" == PrintNat(a.port);
  }

  lemma PrintMoreShape(addresses: seq<Address>)
    requires addresses != []
    ensures var s := PrintMore(addresses); var a := addresses[0];
            |s| > 1 && s[0] == ',' && s[1..] == Shown(a.protocol, a) + PrintMore(addresses[1..])
  {
    PrintedIsShown(addresses[0]);
    AfterComma(PrintAddress(addresses[0]), PrintMore(addresses[1..]));
  }

  lemma MoreStarts(addresses: seq<Address>)
    ensures PrintMore(addresses) == "" || PrintMore(addresses)[0] == ','
  {
  }

  /**
    Each printed address is read as one address or more, so a list that comes out no longer than it
    went in has its items where they were printed.
   */
  lemma {:induction false} NoFewerItems(
    cfg: Config, s: string, colon: nat, end: nat, more: seq<Address>, got: seq<Address>)
    requires Shape(s, colon, end) && s[end..] == PrintMore(more)
    requires ItemsFrom(cfg, s, got).ok && ItemsFrom(cfg, s, got).rest == ""
    ensures |ItemsFrom(cfg, s, got).value| >= |got| + 1 + |more|
    ensures |ItemsFrom(cfg, s, got).value| == |got| + 1 + |more| ==> ProtocolAddr(cfg, s).rest == PrintMore(more)
    decreases |s|
  {
    var a := ProtocolAddr(cfg, s);
    AddressStops(cfg, s, colon, end);
    MoreIsItems(cfg, a.rest, got + [a.value]);
    if Read(s, a.rest) == end {
      if more != [] {
        NextItem(cfg, s, a.rest, end, more, got + [a.value]);
      }
    } else {
      ShortItem(cfg, s, a.rest, a.rest[1..], colon, end, more, got + [a.value]);
    }
  }

  lemma AfterSeparator(s: string, r: string, t: string, colon: nat, end: nat) returns (c: nat, e: nat)
    requires Shape(s, colon, end) && Left(s, r) && Read(s, r) <= colon && r[0] == ',' && t == r[1..]
    ensures |t| < |s| && Shape(t, c, e) && t[e..] == s[end..]
  {
    var i := Read(s, r);
    assert r[0] == s[i] && t == s[i + 1..];
    ShapeDrop(s, colon, end, i + 1);
    c, e := colon - i - 1, end - i - 1;
  }

  /** An item that stops short of its end is followed by another from the same printed address. */
  lemma {:induction false} ShortItem(
    cfg: Config, s: string, r: string, t: string, colon: nat, end: nat, more: seq<Address>, got: seq<Address>)
    requires Shape(s, colon, end) && s[end..] == PrintMore(more) && Left(s, r) && Read(s, r) <= colon
    requires r[0] == ',' && t == r[1..] && ItemsFrom(cfg, t, got).ok && ItemsFrom(cfg, t, got).rest == ""
    ensures |ItemsFrom(cfg, t, got).value| >= |got| + 1 + |more|
    decreases |s|, 0
  {
    var c, e := AfterSeparator(s, r, t, colon, end);
    NoFewerItems(cfg, t, c, e, more, got);
  }

  lemma {:induction false} NextItem(cfg: Config, s: string, r: string, end: nat, more: seq<Address>, got: seq<Address>)
    requires 0 < end <= |s| && r == s[end..] == PrintMore(more) && more != []
    requires r != "" && ItemsFrom(cfg, r[1..], got).ok && ItemsFrom(cfg, r[1..], got).rest == ""
    ensures |ItemsFrom(cfg, r[1..], got).value| >= |got| + |more|
    decreases |s|, 0
  {
    var b := more[0];
    PrintMoreShape(more);
    MoreStarts(more[1..]);
    ShownShape(b.protocol, b, PrintMore(more[1..]));
    var colon := PortColon(b.protocol, b);
    NoFewerItems(cfg, r[1..], colon, colon + 1 + |PrintNat(b.port)|, more[1..], got);
  }

  /** The text of a list from an item on, with `d` where the protocol of the first address should be. */
  function ShownList(d: string, addresses: seq<Address>): string
    requires addresses != []
  {
    Shown(d, addresses[0]) + PrintMore(addresses[1..])
  }

  /** An item read as it was printed leaves the list of the others. */
  lemma ItemStep(cfg: Config, s: string, a: Address, tail: seq<Address>, got: seq<Address>)
    requires ProtocolAddr(cfg, s) == Parsed(true, a, PrintMore(tail))
    ensures ItemsFrom(cfg, s, got) ==
            if tail == [] then Parsed(true, got + [a], "")
            else ItemsFrom(cfg, ShownList(tail[0].protocol, tail), got + [a])
  {
    MoreIsItems(cfg, PrintMore(tail), got + [a]);
    if tail != [] {
      PrintMoreShape(tail);
    }
  }

  /** Every address is read back, the first from `d` and the others from their own protocols. */
  predicate AllRead(cfg: Config, d: string, addresses: seq<Address>)
    requires addresses != []
  {
    && Reads(cfg, d, addresses[0])
    && forall k :: 1 <= k < |addresses| ==> Reads(cfg, addresses[k].protocol, addresses[k])
  }

  lemma AllReadStep(cfg: Config, d: string, addresses: seq<Address>)
    requires |addresses| > 1
    ensures AllRead(cfg, d, addresses) <==>
            Reads(cfg, d, addresses[0]) && AllRead(cfg, addresses[1].protocol, addresses[1..])
  {
    var tail := addresses[1..];
    assert forall k :: 0 <= k < |tail| ==> tail[k] == addresses[k + 1];
    assert forall k :: 1 <= k < |addresses| ==> addresses[k] == tail[k - 1];
  }

  lemma ForwardStep(cfg: Config, d: string, addresses: seq<Address>, got: seq<Address>)
    requires addresses != [] && Reads(cfg, d, addresses[0])
    ensures var a, tail := addresses[0], addresses[1..];
            ItemsFrom(cfg, ShownList(d, addresses), got) ==
            if tail == [] then Parsed(true, got + [a], "")
            else ItemsFrom(cfg, ShownList(tail[0].protocol, tail), got + [a])
  {
    var a, tail := addresses[0], addresses[1..];
    MoreStarts(tail);
    ReadsForward(cfg, d, a, PrintMore(tail));
    ItemStep(cfg, ShownList(d, addresses), a, tail, got);
  }

  lemma GotOne(got: seq<Address>, addresses: seq<Address>)
    requires addresses != []
    ensures got + [addresses[0]] + addresses[1..] == got + addresses
  {
  }

  lemma {:induction false} ListForward(cfg: Config, d: string, addresses: seq<Address>, got: seq<Address>)
    requires addresses != [] && AllRead(cfg, d, addresses)
    ensures ItemsFrom(cfg, ShownList(d, addresses), got) == Parsed(true, got + addresses, "")
    decreases |addresses|
  {
    var a, tail := addresses[0], addresses[1..];
    ForwardStep(cfg, d, addresses, got);
    GotOne(got, addresses);
    if tail != [] {
      AllReadStep(cfg, d, addresses);
      ListForward(cfg, tail[0].protocol, tail, got + [a]);
    } else {
      assert addresses == [a];
    }
  }

  lemma BackwardStep(cfg: Config, d: string, addresses: seq<Address>, got: seq<Address>)
    requires addresses != [] && |d| <= |addresses[0].protocol|
    requires ItemsFrom(cfg, ShownList(d, addresses), got) == Parsed(true, got + addresses, "")
    ensures Reads(cfg, d, addresses[0])
  {
    FirstItem(cfg, d, addresses, got);
    MoreStarts(addresses[1..]);
    ReadsBackward(cfg, d, addresses[0], PrintMore(addresses[1..]));
  }

  lemma {:induction false} ListBackward(cfg: Config, d: string, addresses: seq<Address>, got: seq<Address>)
    requires addresses != [] && |d| <= |addresses[0].protocol|
    requires ItemsFrom(cfg, ShownList(d, addresses), got) == Parsed(true, got + addresses, "")
    ensures AllRead(cfg, d, addresses)
    decreases |addresses|
  {
    var a, tail := addresses[0], addresses[1..];
    BackwardStep(cfg, d, addresses, got);
    ForwardStep(cfg, d, addresses, got);
    GotOne(got, addresses);
    if tail != [] {
      ListBackward(cfg, tail[0].protocol, tail, got + [a]);
      AllReadStep(cfg, d, addresses);
    }
  }

  lemma FirstItem(cfg: Config, d: string, addresses: seq<Address>, got: seq<Address>)
    requires addresses != []
    requires ItemsFrom(cfg, ShownList(d, addresses), got) == Parsed(true, got + addresses, "")
    ensures ProtocolAddr(cfg, ShownList(d, addresses)) == Parsed(true, addresses[0], PrintMore(addresses[1..]))
  {
    var a, tail := addresses[0], addresses[1..];
    var s, colon := ShownList(d, addresses), PortColon(d, a);
    MoreStarts(tail);
    ShownShape(d, a, PrintMore(tail));
    NoFewerItems(cfg, s, colon, colon + 1 + |PrintNat(a.port)|, tail, got);
    var first := ProtocolAddr(cfg, s);
    MoreKeeps(cfg, first.rest, got + [first.value]);
    assert (got + [first.value])[|got|] == (got + addresses)[|got|];
  }

  /** A list of addresses is read back exactly when each of them is. */
  lemma ListExactly(cfg: Config, d: string, addresses: seq<Address>)
    requires addresses != [] && |d| <= |addresses[0].protocol|
    ensures AddrList(cfg, ShownList(d, addresses)) == Parsed(true, addresses, "") <==> AllRead(cfg, d, addresses)
  {
    var s := ShownList(d, addresses);
    assert [] + addresses == addresses;
    ListIsItems(cfg, s);
    if AllRead(cfg, d, addresses) {
      ListForward(cfg, d, addresses, []);
    }
    if AddrList(cfg, s) == Parsed(true, addresses, "") {
      ListBackward(cfg, d, addresses, []);
    }
  }

  lemma ListIsItems(cfg: Config, s: string)
    ensures AddrList(cfg, s) ==
            if ProtocolAddr(cfg, s).ok then ItemsFrom(cfg, s, []) else Parsed(true, [], ProtocolAddr(cfg, s).rest)
  {
    var a := ProtocolAddr(cfg, s);
    assert [] + [a.value] == [a.value];
  }

  // ------------------------------------------------------------ credentials

  /** What the credentials rule leaves of a protocol it takes for empty credentials. */
  function Cut(p: string): string {
    if p != "" && p[0] == '@' then p[1..]
    else if |p| >= 2 && p[0] == '/' && p[1] == '@' then p[2..]
    else p
  }

  predicate NoAt(addresses: seq<Address>) {
    forall k :: 0 <= k < |addresses| ==> '@' !in addresses[k].protocol
  }

  /** The URLs that come back: without credentials, an at-sign in a protocol is taken for the end of some. */
  predicate Survives(cfg: Config, u: Url) {
    && '/' !in u.user && '@' !in u.user && '@' !in u.pass
    && (u.addresses != [] ==>
          var p := u.addresses[0].protocol;
          if u.user != "" || u.pass != "" then AllRead(cfg, p, u.addresses)
          else AllRead(cfg, Cut(p), u.addresses) && (Cut(p) == p ==> NoAt(u.addresses)))
  }

  lemma AtInAddress(a: Address)
    ensures '@' in PrintAddress(a) <==> '@' in a.protocol || '@' in a.host
  {
    var digits := PrintNat(a.port);
    assert '@' !in digits;
  }

  lemma {:induction false} AtInMore(addresses: seq<Address>)
    ensures '@' in PrintMore(addresses) <==>
            exists k :: 0 <= k < |addresses| && ('@' in addresses[k].protocol || '@' in addresses[k].host)
  {
    if addresses != [] {
      var tail := addresses[1..];
      AtInAddress(addresses[0]);
      AtInMore(tail);
      assert forall k :: 0 <= k < |tail| ==> tail[k] == addresses[k + 1];
      assert forall k :: 1 <= k < |addresses| ==> addresses[k] == tail[k - 1];
    }
  }

  lemma AtInList(addresses: seq<Address>)
    requires addresses != []
    ensures '@' in PrintAddresses(addresses) <==>
            exists k :: 0 <= k < |addresses| && ('@' in addresses[k].protocol || '@' in addresses[k].host)
  {
    AtInMore(addresses);
    assert PrintMore(addresses) == "," + PrintAddress(addresses[0]) + PrintMore(addresses[1..]);
  }

  lemma NoAtInHost(cfg: Config, d: string, a: Address)
    requires Reads(cfg, d, a)
    ensures '@' !in a.host
  {
  }

  /** Addresses that can be read back have at-signs, if any, in their protocols. */
  lemma AtOnlyInProtocols(cfg: Config, d: string, addresses: seq<Address>)
    requires addresses != [] && AllRead(cfg, d, addresses)
    ensures '@' in PrintAddresses(addresses) <==> !NoAt(addresses)
  {
    forall k | 0 <= k < |addresses| ensures '@' !in addresses[k].host {
      NoAtInHost(cfg, if k == 0 then d else addresses[k].protocol, addresses[k]);
    }
    AtInList(addresses);
  }

  lemma PrintedIsShownList(addresses: seq<Address>)
    requires addresses != []
    ensures PrintAddresses(addresses) == ShownList(addresses[0].protocol, addresses)
  {
    PrintedIsShown(addresses[0]);
  }

  lemma CleanCredentials(s: string)
    ensures var c := UserPass(s); '/' !in c.user && '@' !in c.user && '@' !in c.pass
  {
  }

  /** Printed credentials are taken off exactly. */
  lemma CredentialsTaken(u: Url, list: string)
    requires '/' !in u.user && '@' !in u.user && '@' !in u.pass && (u.user != "" || u.pass != "")
    ensures UserPass(PrintCredentials(u) + list) == Credentials(u.user, u.pass, list)
  {
    CredentialsShape(u, list);
    SplitCredentials(u.user, u.pass, list);
  }

  /** Without credentials, only an at-sign at the very start, or right after a slash, yields empty ones. */
  lemma EmptyTaken(s: string)
    ensures var c := UserPass(s);
            c.user == "" && c.pass == "" <==>
            '@' !in s || (s != "" && s[0] == '@') || (|s| >= 2 && s[0] == '/' && s[1] == '@')
    ensures '@' !in s ==> UserPass(s).rest == s
    ensures s != "" && s[0] == '@' ==> UserPass(s).rest == s[1..]
    ensures |s| >= 2 && s[0] == '/' && s[1] == '@' ==> UserPass(s).rest == s[2..]
  {
    var at := Find(s, '@');
    if '@' !in s {
      FindNone(s, '@');
    } else {
      assert at < |s|;
      if |s| >= 2 && s[0] == '/' && s[1] == '@' {
        FindAtMost(s, '@', 1);
      }
      var slash := Find(s[..at], '/');
      assert at > 0 && s[0] == '/' ==> slash == 0;
    }
  }

  /** The same for a printed list: what is cut off is the start of its first protocol. */
  lemma CutTaken(addresses: seq<Address>)
    requires addresses != [] && '@' in PrintAddresses(addresses)
    ensures var c := UserPass(PrintAddresses(addresses)); var p := addresses[0].protocol;
            && (c.user == "" && c.pass == "" <==> Cut(p) != p)
            && (Cut(p) != p ==> c.rest == ShownList(Cut(p), addresses))
  {
    var p, s := addresses[0].protocol, PrintAddresses(addresses);
    PrintedIsShownList(addresses);
    ShownFront(p, addresses[0], PrintMore(addresses[1..]));
    EmptyTaken(s);
    assert forall k :: 0 <= k < |p| ==> s[k] == s[..|p|][k] == p[k];
    CutText(p, addresses);
  }

  lemma CutText(p: string, addresses: seq<Address>)
    requires addresses != []
    ensures p != "" && p[0] == '@' ==> ShownList(p, addresses)[1..] == ShownList(p[1..], addresses)
    ensures |p| >= 2 && p[0] == '/' && p[1] == '@' ==> ShownList(p, addresses)[2..] == ShownList(p[2..], addresses)
  {
  }

  // ------------------------------------------------------------ main results

  lemma ParseAfterCredentials(cfg: Config, u: Url, s: string)
    requires SkipScheme(Print(u)) == s && u.addresses != []
    ensures Parse(cfg, Print(u)) == u <==>
            && UserPass(s).user == u.user && UserPass(s).pass == u.pass
            && AddrList(cfg, UserPass(s).rest) == Parsed(true, u.addresses, "")
  {
  }

  lemma WithCredentials(cfg: Config, u: Url)
    requires '/' !in u.user && '@' !in u.user && '@' !in u.pass && (u.user != "" || u.pass != "") && u.addresses != []
    ensures Parse(cfg, Print(u)) == u <==> AllRead(cfg, u.addresses[0].protocol, u.addresses)
  {
    PrintShape(u);
    CredentialsTaken(u, PrintAddresses(u.addresses));
    ParseAfterCredentials(cfg, u, PrintCredentials(u) + PrintAddresses(u.addresses));
    PrintedIsShownList(u.addresses);
    ListExactly(cfg, u.addresses[0].protocol, u.addresses);
  }

  /** What the list rule is given when there are no credentials, if they are to come back empty. */
  lemma EmptyLeaves(addresses: seq<Address>)
    requires addresses != []
    ensures var s := PrintAddresses(addresses); var c := UserPass(s); var p := addresses[0].protocol;
            && (c.user == "" && c.pass == "" <==> '@' !in s || Cut(p) != p)
            && (c.user == "" && c.pass == "" ==> c.rest == ShownList(Cut(p), addresses))
  {
    var s := PrintAddresses(addresses);
    if '@' in s {
      CutTaken(addresses);
    } else {
      PrintedIsShownList(addresses);
      AtInList(addresses);
      EmptyTaken(s);
    }
  }

  lemma WithoutCredentials(cfg: Config, u: Url)
    requires u.user == "" && u.pass == "" && u.addresses != []
    ensures Parse(cfg, Print(u)) == u <==> Survives(cfg, u)
  {
    var p, s := u.addresses[0].protocol, PrintAddresses(u.addresses);
    PrintShape(u);
    CredentialsShape(u, s);
    ParseAfterCredentials(cfg, u, s);
    EmptyLeaves(u.addresses);
    ListExactly(cfg, Cut(p), u.addresses);
    if AllRead(cfg, Cut(p), u.addresses) {
      AtOnlyInProtocols(cfg, Cut(p), u.addresses);
    }
  }

  lemma NoAddresses(cfg: Config, u: Url)
    requires u.addresses == []
    ensures Parse(cfg, Print(u)) == u <==> Survives(cfg, u)
  {
    PrintShape(u);
    CredentialsShape(u, "");
    EmptyList(cfg);
    CleanCredentials(SkipScheme(Print(u)));
    if Survives(cfg, u) && (u.user != "" || u.pass != "") {
      CredentialsTaken(u, "");
    }
  }

  /** For every configuration and every URL: it survives being printed and parsed if and only if it can. */
  lemma PrintThenParse(cfg: Config, u: Url)
    ensures Parse(cfg, Print(u)) == u <==> Survives(cfg, u)
  {
    CleanCredentials(SkipScheme(Print(u)));
    if u.addresses == [] {
      NoAddresses(cfg, u);
    } else if u.user == "" && u.pass == "" {
      WithoutCredentials(cfg, u);
    } else if '/' !in u.user && '@' !in u.user && '@' !in u.pass {
      WithCredentials(cfg, u);
    }
  }

  /** Well-formed, and without credentials no protocol with an at-sign. */
  predicate Printable(cfg: Config, u: Url) {
    WellFormed(cfg, u) && (u.user == "" && u.pass == "" ==> NoAt(u.addresses))
  }

  /** Whatever the default protocol, a URL whose protocols are registered comes back. */
  lemma PrintableSurvives(cfg: Config, u: Url)
    requires Printable(cfg, u)
    ensures Parse(cfg, Print(u)) == u
  {
    PrintThenParse(cfg, u);
  }

  lemma NamedOnly(cfg: Config, d: string, a: Address)
    requires Nameable(cfg, cfg.defaultProtocol) && (a.protocol == cfg.defaultProtocol ==> d == a.protocol)
    ensures Reads(cfg, d, a) <==> d == a.protocol && ValidAddress(cfg, a)
  {
    FindNone(cfg.defaultProtocol, ':');
    assert FirstTag(cfg.defaultProtocol) == cfg.defaultProtocol;
  }

  lemma AllNamed(cfg: Config, d: string, addresses: seq<Address>)
    requires Nameable(cfg, cfg.defaultProtocol) && addresses != []
    requires addresses[0].protocol == cfg.defaultProtocol ==> d == addresses[0].protocol
    ensures AllRead(cfg, d, addresses) <==>
            d == addresses[0].protocol && forall k :: 0 <= k < |addresses| ==> ValidAddress(cfg, addresses[k])
  {
    NamedOnly(cfg, d, addresses[0]);
    forall k | 1 <= k < |addresses|
      ensures Reads(cfg, addresses[k].protocol, addresses[k]) <==> ValidAddress(cfg, addresses[k])
    {
      NamedOnly(cfg, addresses[k].protocol, addresses[k]);
    }
  }

  lemma SurvivesIsPrintable(cfg: Config, u: Url)
    requires Nameable(cfg, cfg.defaultProtocol) && '@' !in cfg.defaultProtocol
    ensures Survives(cfg, u) <==> Printable(cfg, u)
  {
    if u.addresses != [] {
      var p := u.addresses[0].protocol;
      AllNamed(cfg, p, u.addresses);
      AllNamed(cfg, Cut(p), u.addresses);
    }
  }

  /** With a default that can be named and has no at-sign, those are all that come back. */
  lemma PrintableExactly(cfg: Config, u: Url)
    requires Nameable(cfg, cfg.defaultProtocol) && '@' !in cfg.defaultProtocol
    ensures Parse(cfg, Print(u)) == u <==> Printable(cfg, u)
  {
    PrintThenParse(cfg, u);
    SurvivesIsPrintable(cfg, u);
  }

  /** Otherwise others can: addresses of an unregistered default that looks like the start of an IPv6 literal. */
  lemma UnregisteredCanSurvive(cfg: Config, u: Url, a: Address)
    requires cfg.tags == [] && cfg.defaultProtocol == ['[', '1'] == a.protocol && a.host == ['g']
    requires u == Url("", "", [a])
    ensures !Printable(cfg, u) && Parse(cfg, Print(u)) == u
  {
    PrintThenParse(cfg, u);
    SwallowedSurvives(cfg, u, a);
    assert !ValidAddress(cfg, u.addresses[0]);
  }

  lemma SwallowedSurvives(cfg: Config, u: Url, a: Address)
    requires cfg.tags == [] && cfg.defaultProtocol == ['[', '1'] == a.protocol && a.host == ['g']
    requires u == Url("", "", [a])
    ensures Survives(cfg, u)
  {
    assert Swallowed(cfg, a.protocol, a.host);
    assert AllRead(cfg, a.protocol, [a]);
  }

  // ------------------------------------------------------------ which configurations let every text survive

  /** The default can be named, and no tag that can be named holds an at-sign. */
  ghost predicate Plain(cfg: Config) {
    && Nameable(cfg, cfg.defaultProtocol)
    && forall t :: Nameable(cfg, t) ==> '@' !in t
  }

  ghost predicate RoundTrips(cfg: Config, text: string) {
    Parse(cfg, Print(Parse(cfg, text))) == Parse(cfg, text)
  }

  /** Parsing any text, printing the outcome and parsing again changes nothing. */
  lemma ParsePrintParse(cfg: Config, text: string)
    requires Plain(cfg)
    ensures RoundTrips(cfg, text)
  {
    ParsedIsWellFormed(cfg, text);
    PrintableSurvives(cfg, Parse(cfg, text));
  }

  /** One address at host "a" survives only if its protocol can be named and has no at-sign. */
  lemma Survivor(cfg: Config, text: string, a: Address)
    requires RoundTrips(cfg, text) && Parse(cfg, text) == Url("", "", [a]) && a.host == "a"
    ensures Nameable(cfg, a.protocol) && '@' !in a.protocol
  {
    PrintThenParse(cfg, Url("", "", [a]));
    assert Reads(cfg, Cut(a.protocol), [a][0]);
  }

  lemma LetterHost()
    ensures Host("a") == Parsed(true, "a", "")
  {
    PrintedName("a", "");
    assert "a" + "" == "a";
  }

  /** The text "a" is read as one address of the default protocol. */
  lemma BareHost(cfg: Config) returns (text: string, a: Address)
    ensures a.protocol == cfg.defaultProtocol && a.host == "a" && Parse(cfg, text) == Url("", "", [a])
    ensures text == ['a']
  {
    text, a := ['a'], Address(cfg.defaultProtocol, "a", AMQP_PORT);
    FindNone("a", '@');
    FindNone("a", ':');
    LetterHost();
  }

  /** With the default protocol unregistered, the bare host "a" is already lost. */
  lemma UnregisteredDefaultIsLost(cfg: Config, text: string)
    requires cfg.defaultProtocol !in cfg.tags && text == ['a']
    ensures !RoundTrips(cfg, text)
  {
    var bare, a := BareHost(cfg);
    if RoundTrips(cfg, bare) {
      Survivor(cfg, bare, a);
    }
  }

  /** Some text is read as one address of a given registered protocol. */
  lemma TaggedHost(cfg: Config, t: string) returns (text: string, a: Address)
    requires Nameable(cfg, t)
    ensures a.protocol == t && a.host == "a" && Parse(cfg, text) == Url("", "", [a])
  {
    text, a := "@" + (t + ":a"), Address(t, "a", AMQP_PORT);
    EmptyCredentials(t + ":a");
    TaggedList(cfg, t);
  }

  lemma EmptyCredentials(rest: string)
    ensures SkipScheme("@" + rest) == "@" + rest && UserPass("@" + rest) == Credentials("", "", rest)
  {
    var text := "@" + rest;
    assert text[0] == '@' && text[1..] == rest;
  }

  lemma TaggedList(cfg: Config, t: string)
    requires Nameable(cfg, t)
    ensures AddrList(cfg, t + ":a") == Parsed(true, [Address(t, "a", AMQP_PORT)], "")
  {
    FindExact(t, ':', "a");
    assert t + [':'] + "a" == t + ":a";
    assert (t + ":a")[..|t|] == t && (t + ":a")[|t| + 1..] == "a";
    LetterHost();
  }

  lemma RoundTripsNeeds(cfg: Config)
    requires forall text :: RoundTrips(cfg, text)
    ensures Plain(cfg)
  {
    var text, a := BareHost(cfg);
    Survivor(cfg, text, a);
    forall t | Nameable(cfg, t) ensures '@' !in t {
      var tagged, b := TaggedHost(cfg, t);
      Survivor(cfg, tagged, b);
    }
  }

  /**
    The round trip holds of every text exactly when the default protocol is registered and has
    no colon, and no tag without a colon has an at-sign.
   */
  lemma RoundTripsExactly(cfg: Config)
    ensures (forall text :: RoundTrips(cfg, text)) <==> Plain(cfg)
  {
    if forall text :: RoundTrips(cfg, text) {
      RoundTripsNeeds(cfg);
    }
    if Plain(cfg) {
      forall text ensures RoundTrips(cfg, text) {
        ParsePrintParse(cfg, text);
      }
    }
  }
}
