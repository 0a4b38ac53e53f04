/** The `Url` of httpcommon-inl.h: a parser that walks over text and a printer that appends to it.
    A string may hold NUL characters; the searches of the parser stop at the first. */
module Urls {
  import opened Options

  const NUL: char := '\0'
  const HTTP_DEFAULT_PORT: nat := 80
  const HTTP_SECURE_PORT: nat := 443
  const ULONG_MAX: nat := 0xFFFF_FFFF_FFFF_FFFF

  type Port = n: nat | n < 0x1_0000

  datatype Parts = Parts(secure: bool, host: string, port: Port, path: string, query: string)

  function DefaultPort(secure: bool): Port { if secure then HTTP_SECURE_PORT else HTTP_DEFAULT_PORT }

  // ---------------------------------------------------------------- searching

  function FindFrom(s: string, ch: char, i: nat): (r: Option<nat>)
    requires i <= |s|
    ensures r.Some? ==> i <= r.value < |s| && s[r.value] == ch
    ensures r.Some? ==> forall j :: i <= j < r.value ==> s[j] != ch && s[j] != NUL
    ensures r.None? ==> forall j :: i <= j < |s| && s[j] == ch && ch != NUL ==> exists k :: i <= k < j && s[k] == NUL
    decreases |s| - i
  {
    if i == |s| || s[i] == NUL then None
    else if s[i] == ch then Some(i)
    else FindFrom(s, ch, i + 1)
  }

  /** The first `ch` of a string, unless a NUL comes before it. */
  function Find(s: string, ch: char): Option<nat> { FindFrom(s, ch, 0) }

  lemma {:induction false} FoundFrom(s: string, ch: char, i: nat, at: nat)
    requires i <= at < |s| && s[at] == ch && ch != NUL && forall j :: i <= j < at ==> s[j] != ch && s[j] != NUL
    ensures FindFrom(s, ch, i) == Some(at)
    decreases at - i
  {
    if i < at {
      FoundFrom(s, ch, i + 1, at);
    }
  }

  lemma Found(s: string, ch: char, at: nat)
    requires at < |s| && s[at] == ch && ch != NUL && forall j :: 0 <= j < at ==> s[j] != ch && s[j] != NUL
    ensures Find(s, ch) == Some(at)
  {
    FoundFrom(s, ch, 0, at);
  }

  lemma NotFound(s: string, ch: char)
    requires forall j :: 0 <= j < |s| && s[j] == ch ==> exists k :: 0 <= k < j && s[k] == NUL
    ensures Find(s, ch) == None
  {
  }

  method StrChrN(s: string, ch: char) returns (r: Option<nat>)
    ensures r == Find(s, ch)
  {
    var i := 0;
    while i < |s| && s[i] != NUL
      invariant i <= |s| && Find(s, ch) == FindFrom(s, ch, i)
    {
      if s[i] == ch {
        return Some(i);
      }
      i := i + 1;
    }
    r := None;
  }

  function Lower(c: char): char { if 'A' <= c <= 'Z' then (c as int + 32) as char else c }

  /** Whether a string starts with a prefix in any case. */
  predicate HasPrefix(s: string, prefix: string) {
    |s| >= |prefix| && forall i :: 0 <= i < |prefix| ==> Lower(s[i]) == Lower(prefix[i])
  }

  // ---------------------------------------------------------------- numbers

  predicate IsDigit(c: char) { '0' <= c <= '9' }

  predicate IsSpace(c: char) { c == ' ' || 9 <= c as int <= 13 }

  function Digit(d: nat): char
    requires d < 10
  {
    (48 + d) as char
  }

  function Decimal(n: nat): (s: string)
    ensures s != [] && forall i :: 0 <= i < |s| ==> IsDigit(s[i])
  {
    if n < 10 then [Digit(n)] else Decimal(n / 10) + [Digit(n % 10)]
  }

  function DigitsFrom(s: string, value: nat): nat
    decreases |s|
  {
    if s != [] && IsDigit(s[0]) then DigitsFrom(s[1..], 10 * value + (s[0] as int - 48)) else value
  }

  function SkipSpaces(s: string): string {
    if s != [] && IsSpace(s[0]) then SkipSpaces(s[1..]) else s
  }

  /** The number at the front of a string as `strtoul` reads it: spaces, a sign, digits; too large a
      number gives the largest, and a minus sign negates within the type. */
  function Strtoul(s: string): nat {
    var t := SkipSpaces(s);
    var signed := t != [] && (t[0] == '-' || t[0] == '+');
    var value := DigitsFrom(if signed then t[1..] else t, 0);
    if value > ULONG_MAX then ULONG_MAX
    else if signed && t[0] == '-' && value > 0 then ULONG_MAX + 1 - value
    else value
  }

  lemma {:induction false} DecimalReads(n: nat, rest: string)
    ensures DigitsFrom(Decimal(n) + rest, 0) == DigitsFrom(rest, n)
    decreases n
  {
    if n >= 10 {
      var last := [Digit(n % 10)];
      assert Decimal(n) + rest == Decimal(n / 10) + (last + rest);
      DecimalReads(n / 10, last + rest);
      assert (last + rest)[1..] == rest;
    } else {
      assert ([Digit(n)] + rest)[1..] == rest;
    }
  }

  /** What is printed is read back whatever follows it, short of another digit. */
  lemma StrtoulReadsDecimal(n: nat, rest: string)
    requires n <= ULONG_MAX && (rest == [] || !IsDigit(rest[0]))
    ensures Strtoul(Decimal(n) + rest) == n
  {
    var s := Decimal(n) + rest;
    assert IsDigit(s[0]);
    DecimalReads(n, rest);
  }

  lemma {:induction false} DigitsStop(s: string, rest: string, value: nat)
    requires rest == [] || !IsDigit(rest[0])
    ensures DigitsFrom(s + rest, value) == DigitsFrom(s, value)
    decreases |s|
  {
    if s == [] {
      assert s + rest == rest;
    } else if IsDigit(s[0]) {
      assert (s + rest)[1..] == s[1..] + rest;
      DigitsStop(s[1..], rest, 10 * value + (s[0] as int - 48));
    }
  }

  lemma {:induction false} SpacesStop(s: string, rest: string)
    requires rest == [] || !IsSpace(rest[0])
    ensures SkipSpaces(s + rest) == SkipSpaces(s) + rest
    decreases |s|
  {
    if s == [] {
      assert s + rest == rest;
    } else if IsSpace(s[0]) {
      assert (s + rest)[1..] == s[1..] + rest;
      SpacesStop(s[1..], rest);
    }
  }

  /** A number that is followed by nothing or by a slash reads as if it were alone. */
  lemma StrtoulStops(s: string, rest: string)
    requires rest == [] || rest[0] == '/'
    ensures Strtoul(s + rest) == Strtoul(s)
  {
    SpacesStop(s, rest);
    var t := SkipSpaces(s);
    if t == [] {
      assert t + rest == rest;
      DigitsStop([], rest, 0);
    } else {
      assert (t + rest)[1..] == t[1..] + rest;
      DigitsStop(t[1..], rest, 0);
      DigitsStop(t, rest, 0);
    }
  }

  // ---------------------------------------------------------------- parsing and printing

  function WithHostAndPort(p: Parts, text: string, len: nat): Parts
    requires len <= |text|
  {
    var colon := Find(text[..len], ':');
    if colon.Some? then p.(host := text[..colon.value], port := Strtoul(text[colon.value + 1..]) % 0x1_0000)
    else p.(host := text[..len], port := DefaultPort(p.secure))
  }

  /** Where the host of an address starts: behind the user name, if there is one. */
  function AfterUser(address: string): (from: nat)
    ensures from <= |address|
  {
    var at := Find(address, '@');
    if at.Some? then at.value + 1 else 0
  }

  /** Parses the address in the first `len` characters of a text; the number after a colon is read on
      past them. */
  function WithAddress(p: Parts, text: string, len: nat): Parts
    requires len <= |text|
  {
    var from := AfterUser(text[..len]);
    WithHostAndPort(p, text[from..], len - from)
  }

  function WithFullPath(p: Parts, text: string): Parts {
    var mark := Find(text, '?');
    var cut := if mark.Some? then mark.value else |text|;
    p.(path := if cut == 0 then "/" else text[..cut], query := text[cut..])
  }

  const CLEARED := Parts(false, "", HTTP_DEFAULT_PORT, "/", "")

  /** Where the address ends: at the first slash, or with the text. */
  function AddressLength(text: string): (n: nat)
    ensures n <= |text|
  {
    var slash := Find(text, '/');
    if slash.Some? then slash.value else |text|
  }

  function ParseRest(secure: bool, text: string): Parts {
    var n := AddressLength(text);
    WithFullPath(WithAddress(CLEARED.(secure := secure), text, n), text[n..])
  }

  function Parse(text: string): Parts {
    if HasPrefix(text, "http://") then ParseRest(false, text[7..])
    else if HasPrefix(text, "https://") then ParseRest(true, text[8..])
    else CLEARED
  }

  function PortText(p: Parts): string {
    if p.port != DefaultPort(p.secure) then ":" + Decimal(p.port) else ""
  }

  function Protocol(secure: bool): string { if secure then "https://" else "http://" }

  function Print(p: Parts): string { Protocol(p.secure) + (p.host + PortText(p) + (p.path + p.query)) }

  /** The protocol is recognised in any case; any other text clears the Url, to port 80 of no host. */
  lemma SchemeInAnyCase(text: string)
    ensures Parse(text) ==
      if |text| >= 7 && (forall i :: 0 <= i < 7 ==> text[i] == "http://"[i] || text[i] == "HTTP://"[i])
      then ParseRest(false, text[7..])
      else if |text| >= 8 && (forall i :: 0 <= i < 8 ==> text[i] == "https://"[i] || text[i] == "HTTPS://"[i])
      then ParseRest(true, text[8..])
      else Parts(false, "", 80, "/", "")
  {
    PrefixInAnyCase(text, "http://", "HTTP://");
    PrefixInAnyCase(text, "https://", "HTTPS://");
  }

  lemma PrefixInAnyCase(text: string, lower: string, upper: string)
    requires |lower| == |upper|
    requires forall i :: 0 <= i < |lower| ==>
      if 'a' <= lower[i] <= 'z' then upper[i] as int == lower[i] as int - 32
      else upper[i] == lower[i] && !('A' <= lower[i] <= 'Z')
    ensures HasPrefix(text, lower) <==>
      |text| >= |lower| && forall i :: 0 <= i < |lower| ==> text[i] == lower[i] || text[i] == upper[i]
  {
    if |text| >= |lower| {
      forall i | 0 <= i < |lower|
        ensures Lower(text[i]) == Lower(lower[i]) <==> text[i] == lower[i] || text[i] == upper[i]
      {
      }
    }
  }

  /** The port is printed exactly when it is not the usual one of its protocol, 80 or 443. */
  lemma PortPrinted(p: Parts)
    ensures PortText(p) == "" <==> p.port == if p.secure then 443 else 80
    ensures PortText(p) != "" ==> PortText(p) == ":" + Decimal(p.port)
    ensures Print(p) == (if p.secure then "https://" else "http://") + (p.host + PortText(p) + (p.path + p.query))
  {
  }

  /** A printed number has no leading zero. */
  lemma {:induction false} NoLeadingZero(n: nat)
    ensures if n == 0 then Decimal(n) == "0" else Decimal(n)[0] != '0'
    decreases n
  {
    if n >= 10 {
      NoLeadingZero(n / 10);
    }
  }

  // ---------------------------------------------------------------- round trips

  ghost predicate Free(s: string, chars: set<char>) { forall i :: 0 <= i < |s| ==> s[i] !in chars }

  /** A host that the parser does not take apart. */
  ghost predicate PlainHost(host: string) { Free(host, {'/', '@', ':', NUL}) }

  /** A path and a query that the parser tells apart. A NUL in the path hides the mark of a query. */
  ghost predicate PlainPath(path: string, query: string) {
    && path != [] && path[0] == '/' && Find(path, '?') == None
    && (query == [] || (query[0] == '?' && NUL !in path))
  }

  ghost predicate Printable(p: Parts) { PlainHost(p.host) && PlainPath(p.path, p.query) }

  lemma OwnPrefix(prefix: string, rest: string)
    ensures HasPrefix(prefix + rest, prefix) && (prefix + rest)[|prefix|..] == rest
  {
  }

  lemma OtherPrefix(text: string, prefix: string, i: nat)
    requires i < |text| && i < |prefix| && Lower(text[i]) != Lower(prefix[i])
    ensures !HasPrefix(text, prefix)
  {
  }

  lemma ParsePrinted(p: Parts)
    ensures Parse(Print(p)) == ParseRest(p.secure, p.host + PortText(p) + (p.path + p.query))
  {
    var rest := p.host + PortText(p) + (p.path + p.query);
    OwnPrefix(Protocol(p.secure), rest);
    if p.secure {
      OtherPrefix(Print(p), "http://", 4);
    }
  }

  lemma AddressEnds(p: Parts, tail: string)
    requires PlainHost(p.host) && tail != [] && tail[0] == '/'
    ensures AddressLength(p.host + PortText(p) + tail) == |p.host + PortText(p)|
  {
    Found(p.host + PortText(p) + tail, '/', |p.host + PortText(p)|);
  }

  lemma PortReadBack(port: Port, tail: string)
    requires tail == [] || tail[0] == '/'
    ensures Strtoul(Decimal(port) + tail) % 0x1_0000 == port
  {
    StrtoulReadsDecimal(port, tail);
  }

  lemma AddressWithColon(q: Parts, host: string, digits: string, tail: string)
    requires PlainHost(host) && Free(digits, {'@', NUL})
    ensures var address := host + (":" + digits);
      WithAddress(q, address + tail, |address|) == q.(host := host, port := Strtoul(digits + tail) % 0x1_0000)
  {
    var address := host + (":" + digits);
    var text := address + tail;
    assert text[..|address|] == address;
    NotFound(address, '@');
    assert text[0..] == text;
    Found(address, ':', |host|);
    assert text[|host| + 1..] == digits + tail;
  }

  lemma AddressWithoutColon(q: Parts, host: string, tail: string)
    requires PlainHost(host)
    ensures WithAddress(q, host + tail, |host|) == q.(host := host, port := DefaultPort(q.secure))
  {
    var text := host + tail;
    assert text[..|host|] == host;
    NotFound(host, '@');
    assert text[0..] == text;
    NotFound(host, ':');
  }

  /** A port number too large for sixteen bits is not refused: what is left of it is another port. */
  lemma PortWraps(q: Parts, host: string, n: nat, tail: string)
    requires PlainHost(host) && n <= ULONG_MAX && (tail == [] || tail[0] == '/')
    ensures var address := host + (":" + Decimal(n));
      WithAddress(q, address + tail, |address|) == q.(host := host, port := n % 65536)
  {
    AddressWithColon(q, host, Decimal(n), tail);
    StrtoulReadsDecimal(n, tail);
  }

  /** A plain host and its port come back from in front of a path. */
  lemma AddressReadBack(p: Parts, q: Parts, tail: string)
    requires PlainHost(p.host) && (tail == [] || tail[0] == '/') && q.secure == p.secure
    ensures WithAddress(q, p.host + PortText(p) + tail, |p.host + PortText(p)|) == q.(host := p.host, port := p.port)
  {
    if p.port != DefaultPort(p.secure) {
      AddressWithColon(q, p.host, Decimal(p.port), tail);
      PortReadBack(p.port, tail);
    } else {
      AddressWithoutColon(q, p.host, tail);
      assert p.host + "" == p.host;
    }
  }

  /** A path and a query come back exactly when they can be told apart. */
  lemma PathReadBack(q: Parts, path: string, query: string)
    requires path != [] && path[0] == '/'
    ensures WithFullPath(q, path + query) == q.(path := path, query := query) <==> PlainPath(path, query)
  {
    var text := path + query;
    var mark := Find(text, '?');
    if PlainPath(path, query) {
      if query == [] {
        assert text == path;
      } else {
        Found(text, '?', |path|);
      }
      assert text[..|path|] == path && text[|path|..] == query;
    }
    if WithFullPath(q, text) == q.(path := path, query := query) {
      var cut := if mark.Some? then mark.value else |text|;
      assert |text[..cut]| == cut;
      assert cut == |path|;
      if mark == None {
        assert text == path;
      }
    }
  }

  lemma ParsedPathRooted(secure: bool, text: string)
    ensures ParseRest(secure, text).path != [] && ParseRest(secure, text).path[0] == '/'
  {
  }

  /** A slice that starts before the first NUL has no visible `ch` where the text has none. */
  lemma SliceHides(text: string, from: nat, to: nat, ch: char)
    requires from <= to <= |text| && forall j :: 0 <= j < from ==> text[j] != NUL
    requires forall j :: from <= j < to && text[j] == ch ==> exists k :: 0 <= k < j && text[k] == NUL
    ensures Find(text[from..to], ch) == None
  {
    var slice := text[from..to];
    forall j | 0 <= j < |slice| && slice[j] == ch
      ensures exists k :: 0 <= k < j && slice[k] == NUL
    {
      assert text[from + j] == ch;
      var k :| 0 <= k < from + j && text[k] == NUL;
      assert slice[k - from] == NUL;
    }
    NotFound(slice, ch);
  }

  /** Where the host of a text lies. */
  function HostBounds(text: string): (r: (nat, nat))
    ensures r.0 <= r.1 <= |text|
  {
    var len := AddressLength(text);
    var from := AfterUser(text[..len]);
    var colon := Find(text[from..][..len - from], ':');
    (from, if colon.Some? then from + colon.value else len)
  }

  lemma HostIsSlice(secure: bool, text: string)
    ensures var (from, to) := HostBounds(text);
      ParseRest(secure, text).host == text[from..to] && to <= AddressLength(text)
  {
  }

  /** No parsed host shows a slash or a colon: at most one after a NUL. */
  lemma ParsedHost(text: string)
    ensures var (from, to) := HostBounds(text);
      && (forall j :: 0 <= j < from ==> text[j] != NUL)
      && Find(text[from..to], ':') == None && Find(text[from..to], '/') == None
  {
    var (from, to) := HostBounds(text);
    var len := AddressLength(text);
    var at := Find(text[..len], '@');
    if at.Some? {
      assert forall j :: 0 <= j < from ==> text[j] == text[..len][j] && text[j] != NUL;
    }
    assert forall j :: from <= j < to && text[j] == '/' ==> exists k :: 0 <= k < j && text[k] == NUL;
    SliceHides(text, from, to, '/');
    var rest := text[from..][..len - from];
    assert forall j :: from <= j < to && text[j] == ':' ==> rest[j - from] == ':';
    forall j | from <= j < to && text[j] == ':'
      ensures exists k :: 0 <= k < j && text[k] == NUL
    {
      assert rest[j - from] == ':';
      var k :| 0 <= k < j - from && rest[k] == NUL;
      assert text[from + k] == NUL;
    }
    SliceHides(text, from, to, ':');
  }

  lemma ColonBehind(address: string, host: string, digits: string, from: nat)
    requires address == host + (":" + digits) && from <= |host| && Free(host, {':', NUL})
    ensures Find(address[from..], ':') == Some(|host| - from)
  {
    var rest := address[from..];
    assert rest[|host| - from] == ':';
    assert forall j :: 0 <= j < |host| - from ==> rest[j] == host[from + j];
    Found(rest, ':', |host| - from);
  }

  /** What is before an `@` in a host is dropped. */
  lemma AtShortens(p: Parts, tail: string)
    requires tail != [] && tail[0] == '/' && Free(p.host, {'/', ':', NUL}) && '@' in p.host
    ensures var (from, to) := HostBounds(p.host + PortText(p) + tail); to - from < |p.host|
  {
    var address := p.host + PortText(p);
    var text := address + tail;
    Found(text, '/', |address|);
    assert text[..|address|] == address;
    var i :| 0 <= i < |p.host| && p.host[i] == '@';
    assert address[i] == '@';
    var at := Find(address, '@');
    assert at.Some? && at.value <= i;
    assert text[at.value + 1..][..|address| - at.value - 1] == address[at.value + 1..];
    if p.port != DefaultPort(p.secure) {
      ColonBehind(address, p.host, Decimal(p.port), at.value + 1);
    }
  }

  /** A NUL in a host hides the slash after it, or else what is before an `@` is dropped. */
  lemma NulMoves(host: string, tail: string, nul: nat)
    requires nul < |host| && host[nul] == NUL && tail != []
    requires forall j :: 0 <= j < nul ==> host[j] !in {'/', ':', NUL}
    ensures var (from, to) := HostBounds(host + tail); (host + tail)[from..to] != host
  {
    var text := host + tail;
    var (from, to) := HostBounds(text);
    assert text[nul] == NUL && forall j :: 0 <= j < nul ==> text[j] == host[j];
    NotFound(text, '/');
    assert text[..|text|] == text;
    var at := Find(text, '@');
    if at.Some? {
      assert at.value < nul;
      if to - from == |host| {
        assert text[from..to][nul - from] == NUL;
        assert host[nul - from] != NUL;
      }
    } else {
      assert text[0..] == text;
      NotFound(text, ':');
    }
  }

  lemma FirstNul(s: string) returns (nul: nat)
    requires NUL in s
    ensures nul < |s| && s[nul] == NUL && forall j :: 0 <= j < nul ==> s[j] != NUL
  {
    nul := 0;
    while s[nul] != NUL
      invariant nul < |s| && forall j :: 0 <= j < nul ==> s[j] != NUL
      invariant NUL in s[nul..]
      decreases |s| - nul
    {
      nul := nul + 1;
    }
  }

  /** Only a plain host comes back from in front of a path. */
  lemma OnlyPlainComesBack(p: Parts, tail: string)
    requires tail != [] && tail[0] == '/'
    requires var text := p.host + PortText(p) + tail; var (from, to) := HostBounds(text); text[from..to] == p.host
    ensures PlainHost(p.host)
  {
    var text := p.host + PortText(p) + tail;
    ParsedHost(text);
    assert Find(p.host, ':') == None && Find(p.host, '/') == None;
    if NUL in p.host {
      var nul := FirstNul(p.host);
      assert p.host + (PortText(p) + tail) == text;
      NulMoves(p.host, PortText(p) + tail, nul);
    } else if '@' in p.host {
      AtShortens(p, tail);
    }
  }

  /** Printing and parsing give a Url back exactly when its host is plain and its path and query can
      be told apart. */
  lemma RoundTripExactly(p: Parts)
    ensures Parse(Print(p)) == p <==> Printable(p)
  {
    var tail := p.path + p.query;
    var text := p.host + PortText(p) + tail;
    ParsePrinted(p);
    ParsedPathRooted(p.secure, text);
    if p.path != [] && p.path[0] == '/' {
      HostIsSlice(p.secure, text);
      if Parse(Print(p)) == p {
        OnlyPlainComesBack(p, tail);
      }
      if PlainHost(p.host) {
        var q := CLEARED.(secure := p.secure);
        AddressEnds(p, tail);
        AddressReadBack(p, q, tail);
        PathReadBack(q.(host := p.host, port := p.port), p.path, p.query);
        assert text[|p.host + PortText(p)|..] == tail;
      }
    }
  }

  /** Among Urls without NUL: the ones the design speaks of. */
  lemma RoundTrip(p: Parts)
    requires Free(p.host, {'/', '@', ':', NUL}) && Free(p.path, {'?', NUL}) && p.path != [] && p.path[0] == '/'
    requires p.query == [] || p.query[0] == '?'
    ensures Parse(Print(p)) == p
  {
    NotFound(p.path, '?');
    RoundTripExactly(p);
  }

  /** What follows the protocol of a text, nothing if there is none. */
  function BehindProtocol(text: string): string {
    if HasPrefix(text, "http://") then text[7..] else if HasPrefix(text, "https://") then text[8..] else ""
  }

  /** Behind the first `@` of the address there is another before the next colon. */
  ghost predicate SecondAt(rest: string) {
    exists i, j :: 0 <= i < j < |rest| && rest[i] == '@' && rest[j] == '@'
      && '@' !in rest[..i] && ':' !in rest[i..j] && '/' !in rest[..j]
  }

  lemma FoundIn(s: string, ch: char, at: nat)
    requires at < |s| && s[at] == ch && NUL !in s && ch != NUL
    ensures Find(s, ch).Some? && Find(s, ch).value <= at
    ensures ch !in s[..at] ==> Find(s, ch) == Some(at)
  {
    if ch !in s[..at] {
      assert forall j :: 0 <= j < at ==> s[j] == s[..at][j];
      Found(s, ch, at);
    }
  }

  lemma NotIn(s: string, ch: char)
    requires NUL !in s && ch != NUL
    ensures Find(s, ch) == None <==> ch !in s
  {
    if ch in s {
      var at :| 0 <= at < |s| && s[at] == ch;
      FoundIn(s, ch, at);
    }
  }

  /** An `@` stays in the host exactly when the address has a second one before the next colon. */
  lemma AtStays(rest: string)
    requires NUL !in rest
    ensures var (from, to) := HostBounds(rest); '@' in rest[from..to] <==> SecondAt(rest)
  {
    var (from, to) := HostBounds(rest);
    if '@' in rest[from..to] {
      var k :| 0 <= k < to - from && rest[from..to][k] == '@';
      AtIsSecond(rest, from + k);
    }
    if SecondAt(rest) {
      var i, j :| 0 <= i < j < |rest| && rest[i] == '@' && rest[j] == '@'
        && '@' !in rest[..i] && ':' !in rest[i..j] && '/' !in rest[..j];
      SecondStays(rest, i, j);
    }
  }

  lemma Absent(s: string, lo: nat, hi: nat, ch: char)
    requires lo <= hi <= |s| && forall k :: lo <= k < hi ==> s[k] != ch
    ensures ch !in s[lo..hi]
  {
  }

  /** Nothing before the end of an address is a slash, nothing in a host a colon. */
  lemma BoundsAreFree(rest: string)
    requires NUL !in rest
    ensures forall k :: 0 <= k < AddressLength(rest) ==> rest[k] != '/'
    ensures var (from, to) := HostBounds(rest); forall k :: from <= k < to ==> rest[k] != ':'
  {
    var len := AddressLength(rest);
    var from := AfterUser(rest[..len]);
    var tail := rest[from..][..len - from];
    NotIn(rest, '/');
    NotIn(tail, ':');
    assert forall k :: from <= k < len ==> tail[k - from] == rest[k];
  }

  lemma AtIsSecond(rest: string, j: nat)
    requires NUL !in rest
    requires var (from, to) := HostBounds(rest); from <= j < to && rest[j] == '@'
    ensures SecondAt(rest)
  {
    var address := rest[..AddressLength(rest)];
    var (from, to) := HostBounds(rest);
    BoundsAreFree(rest);
    FoundIn(address, '@', j);
    var i := Find(address, '@').value;
    assert from == i + 1 && rest[i] == '@';
    assert forall k :: 0 <= k < i ==> address[k] == rest[k] != '@';
    Absent(rest, 0, i, '@');
    Absent(rest, i, j, ':');
    Absent(rest, 0, j, '/');
    assert rest[0..i] == rest[..i] && rest[0..j] == rest[..j];
  }

  lemma SecondStays(rest: string, i: nat, j: nat)
    requires NUL !in rest && i < j < |rest| && rest[i] == '@' && rest[j] == '@'
    requires '@' !in rest[..i] && ':' !in rest[i..j] && '/' !in rest[..j]
    ensures var (from, to) := HostBounds(rest); '@' in rest[from..to]
  {
    var len := AddressLength(rest);
    assert j < len by {
      assert forall k :: 0 <= k < j ==> rest[..j][k] == rest[k];
    }
    var address := rest[..len];
    assert address[..i] == rest[..i];
    FoundIn(address, '@', i);
    var (from, to) := HostBounds(rest);
    assert from == i + 1;
    var tail := rest[from..][..len - from];
    var colon := Find(tail, ':');
    assert forall k :: i <= k < j ==> rest[i..j][k - i] == rest[k] != ':';
    assert colon.Some? ==> rest[from + colon.value] == ':';
    assert rest[from..to][j - from] == '@';
  }

  lemma PrintableExactly(secure: bool, rest: string)
    requires NUL !in rest
    ensures Printable(ParseRest(secure, rest)) <==> !SecondAt(rest)
  {
    ParsedPlain(secure, rest);
    HostIsSlice(secure, rest);
    AtStays(rest);
  }

  lemma ClearedIsPrintable()
    ensures Printable(CLEARED) && !SecondAt("")
  {
    NotFound("/", '?');
  }

  lemma ParsedIsPrintable(text: string, p: Parts)
    requires NUL !in text && p == Parse(text)
    ensures Printable(p) <==> !SecondAt(BehindProtocol(text))
  {
    if HasPrefix(text, "http://") {
      PrintableExactly(false, text[7..]);
    } else if HasPrefix(text, "https://") {
      PrintableExactly(true, text[8..]);
    } else {
      ClearedIsPrintable();
    }
  }

  /** Parsing a text without NUL gives a Url that prints and parses to itself, unless its address has
      a second `@` before the next colon: the first is taken for the end of a user name, and a second
      parse takes the other. */
  lemma ReparseExactly(text: string, p: Parts)
    requires NUL !in text && p == Parse(text)
    ensures Parse(Print(p)) == p <==> !SecondAt(BehindProtocol(text))
  {
    RoundTripExactly(p);
    ParsedIsPrintable(text, p);
  }

  lemma SecondIn(rest: string, user: string, host: string, tail: string)
    requires rest == user + ("@" + (host + ("@" + tail)))
    requires Free(user, {'@', '/'}) && Free(host, {'@', ':', '/'})
    ensures SecondAt(rest)
  {
    var i, j := |user|, |user| + 1 + |host|;
    assert rest[i] == '@' && rest[j] == '@';
    assert rest[..i] == user && rest[..j] == user + "@" + host && rest[i..j] == "@" + host;
  }

  lemma BehindHttp(text: string, rest: string)
    requires text == "http://" + rest && NUL !in rest
    ensures BehindProtocol(text) == rest && NUL !in text
  {
    assert text[7..] == rest;
    assert forall i :: 0 <= i < |text| ==> text[i] != NUL;
  }

  /** It happens to every such text: `http://a@b@c/` loses its `b@` the second time. */
  lemma ReparseDiffers(text: string, rest: string, user: string, host: string, tail: string)
    requires text == "http://" + rest && rest == user + ("@" + (host + ("@" + tail))) && NUL !in rest
    requires Free(user, {'@', '/'}) && Free(host, {'@', ':', '/'})
    ensures Parse(Print(Parse(text))) != Parse(text)
  {
    SecondIn(rest, user, host, tail);
    BehindHttp(text, rest);
    ReparseExactly(text, Parse(text));
  }

  lemma ParsedPlainPath(q: Parts, full: string)
    requires NUL !in full && (full == [] || full[0] == '/')
    ensures PlainPath(WithFullPath(q, full).path, WithFullPath(q, full).query)
  {
    var mark := Find(full, '?');
    var cut := if mark.Some? then mark.value else |full|;
    if cut > 0 {
      NotFound(full[..cut], '?');
    } else {
      NotFound("/", '?');
    }
  }

  lemma ParsedPlain(secure: bool, text: string)
    requires NUL !in text
    ensures var p := ParseRest(secure, text); Printable(p) <==> '@' !in p.host
  {
    var host := ParseRest(secure, text).host;
    HostIsSlice(secure, text);
    ParsedHost(text);
    assert NUL !in host;
    assert PlainHost(host) <==> '@' !in host;
    var n := AddressLength(text);
    ParsedPlainPath(WithAddress(CLEARED.(secure := secure), text, n), text[n..]);
  }

  /** The number of a port is read past the end of the address, but never beyond a slash: host and
      port are the same in front of a path as on their own. */
  lemma HostAndPortAlone(q: Parts, rest: string, tail: string)
    requires tail == [] || tail[0] == '/'
    ensures WithHostAndPort(q, rest + tail, |rest|) == WithHostAndPort(q, rest, |rest|)
  {
    assert (rest + tail)[..|rest|] == rest == rest[..|rest|];
    var colon := Find(rest, ':');
    if colon.Some? {
      assert (rest + tail)[colon.value + 1..] == rest[colon.value + 1..] + tail;
      StrtoulStops(rest[colon.value + 1..], tail);
    }
  }

  /** A plain host and its port come back from their own text. */
  lemma AddressRoundTrip(p: Parts)
    requires PlainHost(p.host)
    ensures WithAddress(p, p.host + PortText(p), |p.host + PortText(p)|) == p
  {
    AddressReadBack(p, p, []);
    assert p.host + PortText(p) + [] == p.host + PortText(p);
  }

  // ---------------------------------------------------------------- the class

  class Url {
    var secure: bool
    var host: string
    var port: Port
    var path: string
    var query: string

    function View(): Parts
      reads this
    {
      Parts(secure, host, port, path, query)
    }

    constructor FromText(text: string)
      ensures View() == Parse(text)
    {
      secure, host, port, path, query := false, "", HTTP_DEFAULT_PORT, "/", "";
      new;
      SetUrl(text);
    }

    constructor FromParts(fullPath: string, host: string, port: Port)
      requires fullPath == [] || fullPath[0] == '/' || fullPath[0] == '?'
      ensures View() == WithFullPath(Parts(port == HTTP_SECURE_PORT, host, port, "/", ""), fullPath)
    {
      secure, this.host, this.port := port == HTTP_SECURE_PORT, host, port;
      path, query := "/", "";
      new;
      SetFullPath(fullPath);
    }

    predicate IsValid()
      reads this
    {
      host != []
    }

    method Clear()
      modifies this
      ensures View() == CLEARED && !IsValid()
    {
      host := "";
      port := HTTP_DEFAULT_PORT;
      secure := false;
      path := "/";
      query := "";
    }

    method SetUrl(text: string)
      modifies this
      ensures View() == Parse(text)
    {
      if HasPrefix(text, "http://") {
        secure := false;
        SetRest(text[7..]);
      } else if HasPrefix(text, "https://") {
        secure := true;
        SetRest(text[8..]);
      } else {
        Clear();
      }
    }

    /** What follows the protocol. */
    method SetRest(rest: string)
      modifies this`host, this`port, this`path, this`query
      ensures View() == ParseRest(secure, rest)
    {
      var slash := StrChrN(rest, '/');
      var length := if slash.Some? then slash.value else |rest|;
      AddressOverwrites(View(), rest, length);
      SetAddress(rest, length);
      SetFullPath(rest[length..]);
    }

    static lemma AddressOverwrites(q: Parts, text: string, len: nat)
      requires len <= |text|
      ensures WithAddress(q, text, len) ==
        WithAddress(CLEARED.(secure := q.secure), text, len).(path := q.path, query := q.query)
    {
    }

    /** Takes the address from the first `len` characters of a text. */
    method SetAddress(text: string, len: nat)
      requires len <= |text|
      modifies this`host, this`port
      ensures View() == WithAddress(old(View()), text, len)
    {
      var rest, length := text, len;
      var at := StrChrN(rest[..length], '@');
      if at.Some? {
        length := length - (at.value + 1);
        rest := rest[at.value + 1..];
      }
      SetHostAndPort(rest, length);
    }

    /** The part of `SetAddress` behind the user name. */
    method SetHostAndPort(text: string, len: nat)
      requires len <= |text|
      modifies this`host, this`port
      ensures View() == WithHostAndPort(old(View()), text, len)
    {
      var colon := StrChrN(text[..len], ':');
      if colon.Some? {
        host := text[..colon.value];
        port := Strtoul(text[colon.value + 1..]) % 0x1_0000;
      } else {
        host := text[..len];
        port := DefaultPort(secure);
      }
    }

    method SetFullPath(text: string)
      requires text == [] || text[0] == '/' || text[0] == '?'
      modifies this`path, this`query
      ensures View() == WithFullPath(old(View()), text)
    {
      var mark := StrChrN(text, '?');
      var length := if mark.Some? then mark.value else |text|;
      if length == 0 {
        path := "/";
      } else {
        path := text[..length];
      }
      query := text[length..];
    }

    method AppendUrl(before: string) returns (text: string)
      ensures text == before + Print(View())
    {
      text := before + Protocol(secure);
      text := AppendAddress(text);
      text := AppendFullPath(text);
      assert Print(View()) == Protocol(secure) + (host + PortText(View()) + (path + query));
    }

    method AppendAddress(before: string) returns (text: string)
      ensures text == before + (host + PortText(View()))
    {
      assert before + host == before + (host + "");
      assert (before + host) + (":" + Decimal(port)) == before + (host + (":" + Decimal(port)));
      text := before + host;
      if port != DefaultPort(secure) {
        text := text + (":" + Decimal(port));
      }
    }

    method AppendFullPath(before: string) returns (text: string)
      ensures text == before + (path + query)
    {
      text := before + path;
      text := text + query;
    }
  }

  /** A Url object set from the text of another is equal to it, exactly when the other can be
      printed. */
  method CopyByText(from: Url, to: Url)
    requires from != to
    modifies to
    ensures to.View() == from.View() <==> Printable(from.View())
  {
    var text := from.AppendUrl("");
    assert "" + Print(from.View()) == Print(from.View());
    to.SetUrl(text);
    RoundTripExactly(from.View());
  }
}
