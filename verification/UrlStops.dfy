/**
  How far the address rule can read into a list of printed addresses. Every printed address ends in a
  colon and digits, and is followed by a comma or by nothing; whatever stands before that colon, an
  address read from there either ends where the printed one does or stops short of the colon.
 */
module UrlStops {
  import opened UrlSyntax
  import opened UrlRoundTrip

  /** A text whose first part ends at `end`, in a colon and digits, with a comma or nothing after it. */
  predicate Shape(s: string, colon: nat, end: nat) {
    && colon + 1 < end <= |s| && s[colon] == ':'
    && (forall k :: colon < k < end ==> IsDigit(s[k]))
    && (end < |s| ==> s[end] == ',')
  }

  /** How much of a text has been read, given what is left of it. */
  function Read(s: string, rest: string): int {
    |s| - |rest|
  }

  lemma ShapeDrop(s: string, colon: nat, end: nat, i: nat)
    requires Shape(s, colon, end) && i <= colon
    ensures Shape(s[i..], colon - i, end - i)
  {
  }

  lemma NoColon(h: string)
    requires NameChars(h)
    ensures ':' !in h && '[' !in h && ']' !in h && ',' !in h
  {
  }

  lemma NameStops(s: string, colon: nat)
    requires colon < |s| && s[colon] == ':'
    ensures HostSpan(s) <= colon
  {
    var n := HostSpan(s);
    HostSpanName(s);
    NoColon(s[..n]);
    assert forall k :: 0 <= k < n ==> s[..n][k] == s[k] && s[k] != ':';
  }

  /** Characters of an IPv6 literal stop before the last colon, or go on to the end of the digits. */
  lemma Ip6Stops(s: string, colon: nat, end: nat)
    requires Shape(s, colon, end) && s[0] == '['
    ensures var n := Span(Ip6Chars, s[1..]); 1 + n <= colon || 1 + n == end
    ensures var n := Span(Ip6Chars, s[1..]);
            (forall k :: 1 <= k < 1 + n ==> In(Ip6Chars, s[k])) && (1 + n < |s| ==> !In(Ip6Chars, s[1 + n]))
  {
    SpanIn(Ip6Chars, s[1..]);
    assert forall k :: 1 <= k < |s| ==> s[1..][k - 1] == s[k];
  }

  /** The bracket rule: a literal, or a name from where the literal broke off. */
  lemma BracketHost(s: string)
    requires s != "" && s[0] == '['
    ensures var n := Span(Ip6Chars, s[1..]);
            Host(s) == if 2 <= n < |s| - 1 && s[1 + n] == ']' then Parsed(true, s[1..1 + n], s[2 + n..])
                       else HostName(s[1 + n..])
  {
    var n := Span(Ip6Chars, s[1..]);
    var after := s[1 + n..];
    assert after != "" ==> after[0] == s[1 + n] && after[1..] == s[2 + n..];
  }

  /** What is left after reading some of a text: a later part of it. */
  predicate Left(s: string, r: string) {
    |r| <= |s| && r == s[Read(s, r)..]
  }

  lemma LeftFrom(s: string, from: nat, r: string)
    requires from <= |s| && Left(s[from..], r)
    ensures Left(s, r) && Read(s, r) == from + Read(s[from..], r)
  {
    var i := Read(s[from..], r);
    assert s[from..][i..] == s[from + i..];
  }

  /** A host, once found, ends before the last colon. */
  lemma HostStops(s: string, colon: nat, end: nat)
    requires Shape(s, colon, end) && Host(s).ok
    ensures Left(s, Host(s).rest) && Read(s, Host(s).rest) <= colon
  {
    if s[0] != '[' {
      NameStops(s, colon);
      assert Host(s) == HostName(s);
    } else {
      BracketHost(s);
      Ip6Stops(s, colon, end);
      BracketStops(s, Span(Ip6Chars, s[1..]), colon, end);
    }
  }

  lemma BracketStops(s: string, n: nat, colon: nat, end: nat)
    requires Shape(s, colon, end) && (1 + n <= colon || 1 + n == end)
    ensures 1 + n < |s| && s[1 + n] == ']' ==> Left(s, s[2 + n..]) && Read(s, s[2 + n..]) <= colon
    ensures HostName(s[1 + n..]).ok ==>
              Left(s, HostName(s[1 + n..]).rest) && Read(s, HostName(s[1 + n..]).rest) <= colon
  {
    var t := s[1 + n..];
    if 1 + n <= colon {
      NameStops(t, colon - 1 - n);
      LeftFrom(s, 1 + n, HostName(t).rest);
    }
  }

  /** A port read after a host ends where the digits do, or short of the last colon. */
  lemma PortStops(s: string, colon: nat, end: nat)
    requires Shape(s, colon, end)
    ensures Left(s, OptionalPort(s).rest)
    ensures var i := Read(s, OptionalPort(s).rest); if colon == 0 then i == end else i <= colon
  {
    if s[0] == ':' {
      var n := Span(Digits, s[1..]);
      SpanIn(Digits, s[1..]);
      assert s[1..][n..] == s[1 + n..];
      assert forall k :: 1 <= k < |s| ==> s[1..][k - 1] == s[k];
    }
  }

  lemma {:induction false} FindAtMost(s: string, c: char, k: nat)
    requires k < |s| && s[k] == c
    ensures Find(s, c) <= k
  {
    if s[0] != c {
      FindAtMost(s[1..], c, k - 1);
    }
  }

  predicate Stopped(s: string, r: string, colon: nat, end: nat) {
    Left(s, r) && (Read(s, r) == end || Read(s, r) <= colon)
  }

  /** A port read from some place before the last colon. */
  lemma PortFrom(s: string, t: string, colon: nat, end: nat)
    requires Shape(s, colon, end) && Left(s, t) && Read(s, t) <= colon
    ensures Stopped(s, OptionalPort(t).rest, colon, end)
    ensures Read(s, OptionalPort(t).rest) == end ==> t == s[colon..]
  {
    var i := Read(s, t);
    ShapeDrop(s, colon, end, i);
    PortStops(t, colon - i, end - i);
    LeftFrom(s, i, OptionalPort(t).rest);
  }

  /** A host and what follows it: they end where the digits do only if the host ends at the last colon. */
  lemma HostThenPort(s: string, colon: nat, end: nat)
    requires Shape(s, colon, end) && Host(s).ok
    ensures Stopped(s, OptionalPort(Host(s).rest).rest, colon, end)
    ensures Read(s, OptionalPort(Host(s).rest).rest) == end ==> Host(s).rest == s[colon..]
  {
    HostStops(s, colon, end);
    PortFrom(s, Host(s).rest, colon, end);
  }

  /** The digits alone make a host. */
  lemma DigitsAsHost(s: string, colon: nat, end: nat)
    requires Shape(s, colon, end)
    ensures OptionalPort(Host(s[colon + 1..]).rest).rest == s[end..]
  {
    var digits := s[colon + 1..end];
    assert s[colon + 1..] == digits + s[end..];
    PrintedName(digits, s[end..]);
  }

  lemma HostThenPortFrom(s: string, t: string, from: nat, colon: nat, end: nat)
    requires Shape(s, colon, end) && from <= colon && t == s[from..] && Host(t).ok
    ensures Stopped(s, OptionalPort(Host(t).rest).rest, colon, end)
  {
    ShapeDrop(s, colon, end, from);
    HostThenPort(t, colon - from, end - from);
    LeftFrom(s, from, OptionalPort(Host(t).rest).rest);
  }

  /** What follows the tag of an address is a host and perhaps a port. */
  lemma AddressParts(cfg: Config, s: string)
    requires ProtocolAddr(cfg, s).ok
    ensures var t := ProtocolTag(cfg, s).rest;
            Host(t).ok && ProtocolAddr(cfg, s).rest == OptionalPort(Host(t).rest).rest
  {
  }

  lemma TagPlace(cfg: Config, s: string)
    ensures var j := Find(s, ':'); ProtocolTag(cfg, s).rest == if ProtocolTag(cfg, s).ok then s[j + 1..] else s
  {
  }

  /** What an address leaves of the text it was read from. */
  lemma AddressStops(cfg: Config, s: string, colon: nat, end: nat)
    requires Shape(s, colon, end) && ProtocolAddr(cfg, s).ok
    ensures Stopped(s, ProtocolAddr(cfg, s).rest, colon, end)
  {
    var t := ProtocolTag(cfg, s).rest;
    AddressParts(cfg, s);
    TagPlace(cfg, s);
    FindAtMost(s, ':', colon);
    AfterTag(s, t, if ProtocolTag(cfg, s).ok then Find(s, ':') + 1 else 0, colon, end);
  }

  lemma AfterTag(s: string, t: string, from: nat, colon: nat, end: nat)
    requires Shape(s, colon, end) && from <= colon + 1 && t == s[from..] && Host(t).ok
    ensures Stopped(s, OptionalPort(Host(t).rest).rest, colon, end)
  {
    if from <= colon {
      HostThenPortFrom(s, t, from, colon, end);
    } else {
      DigitsAsHost(s, colon, end);
    }
  }
}
