/**
  The URL grammar, rule by rule. Each rule is a function from the text still to be read
  to what it recognises and the text it leaves; like the parser, a rule that fails may
  have consumed some of its input, and the next rule goes on from there.
 */
module UrlSyntax {

  type Port = n: nat | n < 0x1_0000

  const AMQP_PORT: Port := 5672

  datatype Address = Address(protocol: string, host: string, port: Port)

  datatype Url = Url(user: string, pass: string, addresses: seq<Address>)

  /** The protocol tags registered so far, and the protocol of an address that names none. */
  datatype Config = Config(tags: seq<string>, defaultProtocol: string)

  datatype Parsed<+T> = Parsed(ok: bool, value: T, rest: string)

  // ------------------------------------------------------------ characters

  predicate IsDigit(c: char) {
    '0' <= c <= '9'
  }

  predicate IsHex(c: char) {
    IsDigit(c) || 'a' <= c <= 'f' || 'A' <= c <= 'F'
  }

  predicate IsUnreserved(c: char) {
    IsDigit(c) || 'a' <= c <= 'z' || 'A' <= c <= 'Z' || c == '-' || c == '.' || c == '_' || c == '~'
  }

  datatype CharClass = Digits | Ip6Chars

  predicate In(k: CharClass, c: char) {
    match k
    case Digits => IsDigit(c)
    case Ip6Chars => IsHex(c) || c == ':' || c == '.'
  }

  /** How many characters of the class the text begins with. */
  function Span(k: CharClass, s: string): (n: nat)
    ensures n <= |s|
  {
    if s == [] || !In(k, s[0]) then 0 else 1 + Span(k, s[1..])
  }

  /** Where the character first occurs; the length of the text when it does not. */
  function Find(s: string, c: char): (n: nat)
    ensures n <= |s|
    ensures c !in s[..n] && (n < |s| ==> s[n] == c)
  {
    if s == [] || s[0] == c then 0 else
      var n := 1 + Find(s[1..], c);
      assert s[..n] == [s[0]] + s[1..][..n - 1];
      n
  }

  // ------------------------------------------------------------ rules

  /** Unreserved characters and percent escapes; an escape cut short ends the host. */
  function HostSpan(s: string): (n: nat)
    ensures n <= |s|
  {
    if s == [] then 0
    else if IsUnreserved(s[0]) then 1 + HostSpan(s[1..])
    else if s[0] != '%' then 0
    else if |s| == 1 || !IsHex(s[1]) then 1
    else if |s| == 2 || !IsHex(s[2]) then 2
    else 3 + HostSpan(s[3..])
  }

  function Ip6Literal(s: string): Parsed<string> {
    if s == [] || s[0] != '[' then Parsed(false, "", s) else
      var n := Span(Ip6Chars, s[1..]);
      var after := s[1 + n..];
      if n < 2 || after == [] || after[0] != ']' then Parsed(false, "", after)
      else Parsed(true, s[1..1 + n], after[1..])
  }

  function Host(s: string): Parsed<string> {
    var ip6 := Ip6Literal(s);
    if ip6.ok then ip6 else HostName(ip6.rest)
  }

  function HostName(s: string): Parsed<string> {
    var n := HostSpan(s);
    Parsed(n != 0, s[..n], s[n..])
  }

  function DigitValue(c: char): nat
    requires IsDigit(c)
  {
    c as int - '0' as int
  }

  function Value(digits: string): nat
    requires forall k :: 0 <= k < |digits| ==> IsDigit(digits[k])
  {
    if digits == [] then 0
    else Value(digits[..|digits| - 1]) * 10 + DigitValue(digits[|digits| - 1])
  }

  lemma {:induction false} SpanIn(k: CharClass, s: string)
    ensures forall i :: 0 <= i < Span(k, s) ==> In(k, s[i])
    ensures Span(k, s) < |s| ==> !In(k, s[Span(k, s)])
  {
    if s != [] && In(k, s[0]) {
      SpanIn(k, s[1..]);
    }
  }

  /** A decimal number that fits sixteen bits; the digits are consumed either way. */
  function PortNumber(s: string): Parsed<Port> {
    var n := Span(Digits, s);
    SpanIn(Digits, s);
    if n == 0 || Value(s[..n]) >= 0x1_0000 then Parsed(false, 0, s[n..])
    else Parsed(true, Value(s[..n]), s[n..])
  }

  /** The text up to the next colon, wherever that is, if it is a registered tag. */
  function ProtocolTag(cfg: Config, s: string): Parsed<string> {
    var j := Find(s, ':');
    if j < |s| && s[..j] in cfg.tags then Parsed(true, s[..j], s[j + 1..])
    else Parsed(false, cfg.defaultProtocol, s)
  }

  /** A port after a colon; without a colon, the default. */
  function OptionalPort(s: string): Parsed<Port> {
    if s != [] && s[0] == ':' then PortNumber(s[1..]) else Parsed(true, AMQP_PORT, s)
  }

  function ProtocolAddr(cfg: Config, s: string): Parsed<Address> {
    var tag := ProtocolTag(cfg, s);
    var host := Host(tag.rest);
    if !host.ok then Parsed(false, Address(tag.value, "", AMQP_PORT), host.rest)
    else
      var port := OptionalPort(host.rest);
      Parsed(port.ok, Address(tag.value, host.value, port.value), port.rest)
  }

  lemma HostConsumes(s: string)
    ensures |Host(s).rest| <= |s|
    ensures Host(s).ok ==> |Host(s).rest| < |s|
  {
  }

  lemma AddrConsumes(cfg: Config, s: string)
    ensures |ProtocolAddr(cfg, s).rest| <= |s|
  {
    HostConsumes(ProtocolTag(cfg, s).rest);
  }

  /** The rest of a list of addresses after its first one. */
  function MoreAddrs(cfg: Config, s: string, got: seq<Address>): Parsed<seq<Address>>
    decreases |s|
  {
    if s == [] || s[0] != ',' then Parsed(true, got, s)
    else if |s| == 1 then Parsed(false, got, s[1..])
    else
      var a := ProtocolAddr(cfg, s[1..]);
      AddrConsumes(cfg, s[1..]);
      if !a.ok then Parsed(false, got, a.rest) else MoreAddrs(cfg, a.rest, got + [a.value])
  }

  /** A list may be empty: a first address that fails is no failure of the list. */
  function AddrList(cfg: Config, s: string): Parsed<seq<Address>> {
    var a := ProtocolAddr(cfg, s);
    if !a.ok then Parsed(true, [], a.rest) else MoreAddrs(cfg, a.rest, [a.value])
  }

  const SCHEME := "amqp:"

  function SkipScheme(s: string): string {
    if |SCHEME| <= |s| && s[..|SCHEME|] == SCHEME then s[|SCHEME|..] else s
  }

  datatype Credentials = Credentials(user: string, pass: string, rest: string)

  /** Everything before the first at-sign, split at its first slash. */
  function UserPass(s: string): Credentials {
    var at := Find(s, '@');
    if at == |s| then Credentials("", "", s) else
      var slash := Find(s[..at], '/');
      Credentials(s[..slash], if slash == at then "" else s[slash + 1..at], s[at + 1..])
  }

  /** parseNoThrow into a fresh Url: on failure the addresses are dropped, user and password stay. */
  function Parse(cfg: Config, text: string): Url {
    var c := UserPass(SkipScheme(text));
    var l := AddrList(cfg, c.rest);
    Url(c.user, c.pass, if l.ok && l.rest == [] then l.value else [])
  }

  // ------------------------------------------------------------ printing

  function DigitChar(d: nat): (c: char)
    requires d < 10
    ensures IsDigit(c) && DigitValue(c) == d
  {
    ('0' as int + d) as char
  }

  function PrintNat(n: nat): (s: string)
    ensures s != [] && forall k :: 0 <= k < |s| ==> IsDigit(s[k])
  {
    if n < 10 then [DigitChar(n)] else PrintNat(n / 10) + [DigitChar(n % 10)]
  }

  function PrintAddress(a: Address): string {
    if ':' in a.host then a.protocol + ":[" + a.host + "]:" + PrintNat(a.port)
    else a.protocol + ":" + a.host + ":" + PrintNat(a.port)
  }

  function PrintMore(addresses: seq<Address>): string {
    if addresses == [] then "" else "," + PrintAddress(addresses[0]) + PrintMore(addresses[1..])
  }

  function PrintAddresses(addresses: seq<Address>): string {
    if addresses == [] then "" else PrintAddress(addresses[0]) + PrintMore(addresses[1..])
  }

  function PrintCredentials(u: Url): string {
    u.user + (if u.pass == "" then "" else "/" + u.pass) + (if u.user == "" && u.pass == "" then "" else "@")
  }

  function Print(u: Url): string {
    SCHEME + PrintCredentials(u) + PrintAddresses(u.addresses)
  }
}
