/** The `ws://` and `wss://` URL parser: the bounded port accumulator, the grammar it
    accepts, and the canonical spelling it reads back. */
module Url {
  import opened Basics
  import opened Options

  const MAX_PORT: nat := 65535

  datatype WsUrl = WsUrl(host: string, port: nat, path: string, isTls: bool)

  datatype Error = BadScheme | EmptyPort | NonNumericPort | PortOutOfRange | PortZero | EmptyHost

  datatype Result<+T> = Ok(value: T) | Err(error: Error)

  // ---- Decimal numerals ----

  predicate Digit(c: char) {
    '0' <= c <= '9'
  }

  predicate Digits(s: string) {
    forall i | 0 <= i < |s| :: Digit(s[i])
  }

  /** The value of a decimal numeral, leading zeros included. */
  function Value(s: string): (v: nat)
    requires Digits(s)
  {
    if s == [] then 0 else 10 * Value(s[..|s| - 1]) + Unit(s[|s| - 1])
  }

  function Unit(c: char): (n: nat)
    requires Digit(c)
    ensures n < 10
  {
    c as int - '0' as int
  }

  /** The longest prefix made of digits only. */
  function Run(s: string): (r: string)
    ensures r <= s && Digits(r)
    ensures |r| < |s| ==> !Digit(s[|r|])
  {
    if s == [] || !Digit(s[0]) then [] else [s[0]] + Run(s[1..])
  }

  /** A port text read as the numeral it spells. */
  function PortOf(s: string): (r: Result<nat>) {
    if s == [] then Err(EmptyPort)
    else if Value(Run(s)) > MAX_PORT then Err(PortOutOfRange)
    else if Run(s) != s then Err(NonNumericPort)
    else if Value(s) == 0 then Err(PortZero)
    else Ok(Value(s))
  }

  lemma {:induction false} PrefixValue(s: string, k: nat)
    requires Digits(s) && k <= |s|
    ensures Digits(s[..k]) && Value(s[..k]) <= Value(s)
  {
    if k < |s| {
      var init := s[..|s| - 1];
      PrefixValue(init, k);
      assert init[..k] == s[..k];
    } else {
      assert s[..k] == s;
    }
  }

  lemma {:induction false} RunOfDigits(s: string)
    requires Digits(s)
    ensures Run(s) == s
  {
    if s != [] {
      RunOfDigits(s[1..]);
    }
  }

  /** A port text is accepted if and only if it is a numeral whose value is a port. */
  lemma PortExact(s: string)
    ensures PortOf(s).Ok? <==> s != [] && Digits(s) && 1 <= Value(s) <= MAX_PORT
    ensures PortOf(s).Ok? ==> PortOf(s).value == Value(s)
  {
    if Digits(s) {
      RunOfDigits(s);
    }
  }

  lemma NextDigit(run: string, i: nat)
    requires Digits(run) && i < |run|
    ensures Value(run[..i + 1]) == 10 * Value(run[..i]) + Unit(run[i])
  {
    assert run[..i + 1][..i] == run[..i];
  }

  /** The port loop, in 32-bit arithmetic with the final 16-bit cast. Neither ever loses a
      bit, however long the text, because the running value is checked after every digit. */
  method ParsePort(s: string) returns (r: Result<nat>)
    ensures r == PortOf(s)
  {
    hide Value, Unit;
    if s == [] {
      return Err(EmptyPort);
    }
    ghost var run := Run(s);
    var p, i := 0, 0;
    assert Value(run[..0]) == 0 by { ValueOfNone(run[..0]); }
    while i < |s|
      invariant 0 <= i <= |run|
      invariant p == Value(run[..i]) <= MAX_PORT
    {
      if s[i] < '0' || s[i] > '9' {
        assert run[..i] == run;
        return Err(NonNumericPort);
      }
      NextDigit(run, i);
      assert p * 10 + Unit(s[i]) <= 655359;
      p := (p * 10 + Unit(s[i])) % WRAP32;
      if p > MAX_PORT {
        PrefixValue(run, i + 1);
        return Err(PortOutOfRange);
      }
      i := i + 1;
    }
    assert run[..i] == run == s;
    if p == 0 {
      return Err(PortZero);
    }
    r := Ok(p % 0x1_0000);
  }

  lemma ValueOfNone(s: string)
    requires s == []
    ensures Value(s) == 0
  {}

  // ---- The parser ----

  /** Where `c` first occurs in `s`, or the length of `s`. */
  function Find(s: string, c: char): (k: nat)
    ensures k <= |s| && c !in s[..k]
    ensures k < |s| ==> s[k] == c
  {
    if s == [] || s[0] == c then 0 else 1 + Find(s[1..], c)
  }

  function Scheme(isTls: bool): (s: string) {
    if isTls then "wss://" else "ws://"
  }

  function DefaultPort(isTls: bool): (p: nat) {
    if isTls then 443 else 80
  }

  function Finish(isTls: bool, host: string, port: nat, path: string): (r: Result<WsUrl>) {
    if host == [] then Err(EmptyHost) else Ok(WsUrl(host, port, path, isTls))
  }

  function ParseAuthority(isTls: bool, authority: string, path: string): (r: Result<WsUrl>) {
    var colon := Find(authority, ':');
    if colon == |authority| then Finish(isTls, authority, DefaultPort(isTls), path)
    else
      var port := PortOf(authority[colon + 1..]);
      if port.Err? then Err(port.error) else Finish(isTls, authority[..colon], port.value, path)
  }

  function ParseRest(isTls: bool, rest: string): (r: Result<WsUrl>) {
    var slash := Find(rest, '/');
    ParseAuthority(isTls, rest[..slash], if slash == |rest| then "/" else rest[slash..])
  }

  function Parse(url: string): (r: Result<WsUrl>) {
    if Scheme(true) <= url then ParseRest(true, url[6..])
    else if Scheme(false) <= url then ParseRest(false, url[5..])
    else Err(BadScheme)
  }

  /** `parse_ws_url`, whose only loop is the port's. */
  method ParseWsUrl(url: string) returns (r: Result<WsUrl>)
    ensures r == Parse(url)
  {
    hide PortOf, Find;
    var isTls := "wss://" <= url;
    if !isTls && !("ws://" <= url) {
      return Err(BadScheme);
    }
    var rest := if isTls then url[6..] else url[5..];
    var port := DefaultPort(isTls);
    var slash := Find(rest, '/');
    var authority, path := rest[..slash], if slash == |rest| then "/" else rest[slash..];
    var colon := Find(authority, ':');
    var host := authority[..colon];
    assert colon == |authority| ==> host == authority;
    if colon < |authority| {
      var p := ParsePort(authority[colon + 1..]);
      if p.Err? {
        return Err(p.error);
      }
      port := p.value;
    }
    if host == [] {
      return Err(EmptyHost);
    }
    r := Ok(WsUrl(host, port, path, isTls));
  }

  // ---- The grammar ----

  predicate WellFormed(u: WsUrl) {
    && u.host != [] && '/' !in u.host && ':' !in u.host
    && 1 <= u.port <= MAX_PORT
    && u.path != [] && u.path[0] == '/'
  }

  /** The text of a URL whose port and path are written out or left to their defaults. */
  function Text(isTls: bool, host: string, port: Option<string>, path: string): (s: string) {
    (if isTls then "wss://" else "ws://") + (host + Tail(port) + path)
  }

  /** `port` and `path` as written stand for the port and path of `u`. */
  predicate Stands(u: WsUrl, port: Option<string>, path: string) {
    && (path == u.path || (path == [] && u.path == "/"))
    && match port {
         case None => u.port == if u.isTls then 443 else 80
         case Some(text) => Digits(text) && Value(text) == u.port
       }
  }

  lemma {:induction false} FindFirst(a: string, b: string, c: char)
    requires c !in a && (b == [] || b[0] == c)
    ensures Find(a + b, c) == |a|
    ensures (a + b)[..|a|] == a && (a + b)[|a|..] == b
  {
    if a != [] {
      assert (a + b)[1..] == a[1..] + b;
      FindFirst(a[1..], b, c);
    }
  }

  lemma SchemeDecides(isTls: bool, rest: string)
    ensures Parse(Scheme(isTls) + rest) == ParseRest(isTls, rest)
  {
    var url := Scheme(isTls) + rest;
    assert url[|Scheme(isTls)|..] == rest;
    if !isTls {
      assert url[2] == ':' && Scheme(true)[2] == 's';
    }
  }

  lemma NoSlash(host: string, tail: string)
    requires '/' !in host
    requires tail == [] || (tail[0] == ':' && Digits(tail[1..]))
    ensures '/' !in host + tail
  {
    forall i | 0 <= i < |tail| ensures tail[i] != '/' {
      if i > 0 {
        assert tail[i] == tail[1..][i - 1];
      }
    }
  }

  function Tail(port: Option<string>): (s: string) {
    if port.Some? then ":" + port.value else ""
  }

  lemma AuthorityText(u: WsUrl, port: Option<string>, path: string)
    requires WellFormed(u) && Stands(u, port, path)
    ensures ParseAuthority(u.isTls, u.host + Tail(port), u.path) == Ok(u)
    ensures '/' !in u.host + Tail(port)
  {
    hide PortOf, Value;
    var tail := Tail(port);
    NoSlash(u.host, tail) by {
      if port.Some? {
        assert tail[1..] == port.value;
      }
    }
    FindFirst(u.host, tail, ':');
    if port.Some? {
      assert (u.host + tail)[|u.host| + 1..] == port.value;
      PortExact(port.value);
      assert port.value != [] by {
        if port.value == [] { ValueOfNone(port.value); }
      }
    } else {
      assert u.host + tail == u.host;
    }
  }

  /** Everything the grammar spells is accepted, and read as what it spells. */
  lemma ParseText(u: WsUrl, port: Option<string>, path: string)
    requires WellFormed(u) && Stands(u, port, path)
    ensures Parse(Text(u.isTls, u.host, port, path)) == Ok(u)
  {
    hide ParseAuthority, Stands;
    AuthorityText(u, port, path);
    SchemeDecides(u.isTls, u.host + Tail(port) + path);
    PathStands(u, port, path);
    FindFirst(u.host + Tail(port), path, '/');
  }

  lemma PathStands(u: WsUrl, port: Option<string>, path: string)
    requires WellFormed(u) && Stands(u, port, path)
    ensures path == [] ==> u.path == "/"
    ensures path != [] ==> path == u.path && path[0] == '/'
  {}

  /** The port as written in an authority, if it is written. */
  function PortText(authority: string): (port: Option<string>) {
    var colon := Find(authority, ':');
    if colon == |authority| then None else Some(authority[colon + 1..])
  }

  lemma AuthoritySpells(isTls: bool, authority: string, written: string, path: string, u: WsUrl)
    requires path == written || (written == [] && path == "/")
    requires ParseAuthority(isTls, authority, path) == Ok(u)
    ensures u.isTls == isTls && u.path == path && u.host != [] && ':' !in u.host && 1 <= u.port <= MAX_PORT
    ensures authority == u.host + Tail(PortText(authority))
    ensures Stands(u, PortText(authority), written)
  {
    hide PortOf, Find, Value, Tail, Stands;
    var colon := Find(authority, ':');
    if colon < |authority| {
      PortSpells(isTls, authority, written, path, u);
    } else {
      DefaultSpells(isTls, authority, written, path, u);
    }
  }

  lemma PortSpells(isTls: bool, authority: string, written: string, path: string, u: WsUrl)
    requires path == written || (written == [] && path == "/")
    requires ParseAuthority(isTls, authority, path) == Ok(u) && Find(authority, ':') < |authority|
    ensures u.isTls == isTls && u.path == path && u.host != [] && ':' !in u.host && 1 <= u.port <= MAX_PORT
    ensures authority == u.host + Tail(PortText(authority))
    ensures Stands(u, PortText(authority), written)
  {
    hide PortOf, Find, Value, Digits;
    var colon := Find(authority, ':');
    var host, text := authority[..colon], authority[colon + 1..];
    PortExact(text);
    SplitAt(authority, colon);
    assert u == WsUrl(host, PortOf(text).value, path, isTls);
    assert PortText(authority) == Some(text);
  }

  lemma SplitAt(s: string, k: nat)
    requires k < |s| && s[k] == ':'
    ensures s == s[..k] + Tail(Some(s[k + 1..]))
  {
    var tail := ":" + s[k + 1..];
    assert s[k..] == tail;
    assert s == s[..k] + s[k..];
  }

  lemma DefaultSpells(isTls: bool, authority: string, written: string, path: string, u: WsUrl)
    requires path == written || (written == [] && path == "/")
    requires ParseAuthority(isTls, authority, path) == Ok(u) && Find(authority, ':') == |authority|
    ensures u.isTls == isTls && u.path == path && u.host != [] && ':' !in u.host && 1 <= u.port <= MAX_PORT
    ensures authority == u.host + Tail(PortText(authority))
    ensures Stands(u, PortText(authority), written)
  {
    hide PortOf, Find, Value;
    assert authority[..|authority|] == authority;
  }

  lemma RestSpells(isTls: bool, rest: string, u: WsUrl) returns (port: Option<string>, path: string)
    requires ParseRest(isTls, rest) == Ok(u)
    ensures WellFormed(u) && u.isTls == isTls
    ensures Stands(u, port, path) && rest == u.host + Tail(port) + path
  {
    hide ParseAuthority, Stands, Find, PortText, Tail;
    var slash := Find(rest, '/');
    var authority := rest[..slash];
    port, path := PortText(authority), rest[slash..];
    AuthoritySpells(isTls, authority, path, if slash == |rest| then "/" else path, u);
    NoSlashInHost(u.host, Tail(port));
    assert rest == authority + path;
  }

  lemma NoSlashInHost(host: string, tail: string)
    requires '/' !in host + tail
    ensures '/' !in host
  {
    assert forall i | 0 <= i < |host| :: (host + tail)[i] == host[i];
  }

  /** Everything accepted is spelled by the grammar. */
  lemma ParseSpells(url: string, u: WsUrl)
    requires Parse(url) == Ok(u)
    ensures WellFormed(u)
    ensures exists port, path :: Stands(u, port, path) && url == Text(u.isTls, u.host, port, path)
  {
    hide ParseRest, Stands, Tail;
    var isTls := Scheme(true) <= url;
    var rest := url[|Scheme(isTls)|..];
    var port, path := RestSpells(isTls, rest, u);
    assert url == Scheme(isTls) + rest;
    assert url == Text(u.isTls, u.host, port, path);
  }

  /** The parser accepts exactly the grammar, and reads each text as the one URL it spells. */
  lemma GrammarExact(url: string, u: WsUrl)
    ensures Parse(url) == Ok(u) <==>
            WellFormed(u) && exists port, path :: Stands(u, port, path) && url == Text(u.isTls, u.host, port, path)
  {
    if Parse(url) == Ok(u) {
      ParseSpells(url, u);
    } else if WellFormed(u) {
      forall port, path | Stands(u, port, path) ensures url != Text(u.isTls, u.host, port, path) {
        ParseText(u, port, path);
      }
    }
  }

  // ---- The errors ----

  /** A text taken apart as the parser takes it apart: the host up to the first colon or slash, the
      port up to the first slash, and the rest. */
  predicate Apart(host: string, port: Option<string>, path: string) {
    && '/' !in host && ':' !in host
    && (port.Some? ==> '/' !in port.value)
    && (path == [] || path[0] == '/')
  }

  /** Only the scheme decides whether a text is taken apart at all, and every text with one can be. */
  lemma Taken(url: string) returns (isTls: bool, host: string, port: Option<string>, path: string)
    ensures Parse(url) == Err(BadScheme) <==> !("ws://" <= url) && !("wss://" <= url)
    ensures "ws://" <= url || "wss://" <= url ==> Apart(host, port, path) && url == Text(isTls, host, port, path)
  {
    hide ParseRest, Tail, Apart;
    isTls, host, port, path := "wss://" <= url, "", None, "";
    if isTls || "ws://" <= url {
      var rest := url[|Scheme(isTls)|..];
      host, port, path := SplitRest(rest);
      assert url == Scheme(isTls) + rest;
      SchemeDecides(isTls, rest);
      RestNotBad(isTls, rest);
    }
  }

  lemma SplitRest(rest: string) returns (host: string, port: Option<string>, path: string)
    ensures Apart(host, port, path) && rest == host + Tail(port) + path
  {
    hide Find, Tail;
    var slash := Find(rest, '/');
    var authority := rest[..slash];
    path := rest[slash..];
    host, port := SplitAuthority(authority);
    assert rest == authority + path;
  }

  lemma SplitAuthority(authority: string) returns (host: string, port: Option<string>)
    requires '/' !in authority
    ensures '/' !in host && ':' !in host && (port.Some? ==> '/' !in port.value) && authority == host + Tail(port)
  {
    hide Find;
    var colon := Find(authority, ':');
    host, port := authority[..colon], PortText(authority);
    NoneIn(authority, colon);
    if colon < |authority| {
      SplitAt(authority, colon);
    } else {
      assert authority == host + "";
    }
  }

  lemma NoneIn(authority: string, colon: nat)
    requires '/' !in authority && colon <= |authority|
    ensures '/' !in authority[..colon] && (colon < |authority| ==> '/' !in authority[colon + 1..])
  {}

  lemma RestNotBad(isTls: bool, rest: string)
    ensures ParseRest(isTls, rest) != Err(BadScheme)
  {
    hide Find, Value;
  }

  /** A port text that is a numeral with the value of a port. */
  predicate IsPort(text: string) {
    text != "" && Digits(text) && 1 <= Value(text) <= 65535
  }

  /** What is wrong with a port text, the first of it that is. */
  lemma PortVerdict(text: string)
    ensures var r := PortOf(text);
            && (r == Err(EmptyPort) <==> text == "")
            && (r == Err(PortOutOfRange) <==> text != "" && Value(Run(text)) > 65535)
            && (r == Err(NonNumericPort) <==> text != "" && !Digits(text) && Value(Run(text)) <= 65535)
            && (r == Err(PortZero) <==> text != "" && Digits(text) && Value(text) == 0)
            && (r.Ok? <==> IsPort(text)) && r != Err(BadScheme) && r != Err(EmptyHost)
  {
    hide Value;
    if Digits(text) {
      RunOfDigits(text);
    }
  }

  lemma ParsedApart(isTls: bool, host: string, port: Option<string>, path: string)
    requires Apart(host, port, path)
    ensures var r := Parse(Text(isTls, host, port, path));
            if port.Some? && PortOf(port.value).Err? then r == Err(PortOf(port.value).error)
            else if host == "" then r == Err(EmptyHost) else r.Ok?
  {
    hide PortOf, Find;
    var tail := Tail(port);
    var authority := host + tail;
    SchemeDecides(isTls, authority + path);
    NoSlashJoined(host, port);
    FindFirst(authority, path, '/');
    FindFirst(host, tail, ':');
    if port.Some? {
      assert authority[|host| + 1..] == port.value;
    } else {
      assert authority == host;
    }
  }

  /** The error for every text that is not accepted: the port is looked at before the host. */
  lemma ErrorExact(isTls: bool, host: string, port: Option<string>, path: string)
    requires Apart(host, port, path)
    ensures var r, written := Parse(Text(isTls, host, port, path)), port.Some? && port.value != "";
            && (r == Err(EmptyPort) <==> port == Some(""))
            && (r == Err(PortOutOfRange) <==> written && Value(Run(port.value)) > 65535)
            && (r == Err(NonNumericPort) <==> written && !Digits(port.value) && Value(Run(port.value)) <= 65535)
            && (r == Err(PortZero) <==> written && Digits(port.value) && Value(port.value) == 0)
            && (r == Err(EmptyHost) <==> host == "" && (port.Some? ==> IsPort(port.value)))
            && (r.Ok? <==> host != "" && (port.Some? ==> IsPort(port.value)))
  {
    hide Value, Find, Parse, PortOf, Text, Apart, IsPort, Run;
    ParsedApart(isTls, host, port, path);
    if port.Some? {
      PortVerdict(port.value);
    }
  }

  lemma NoSlashJoined(host: string, port: Option<string>)
    requires '/' !in host && (port.Some? ==> '/' !in port.value)
    ensures '/' !in host + Tail(port)
  {}

  // ---- The canonical spelling ----

  function Decimal(n: nat): (s: string)
    ensures s != [] && Digits(s) && Value(s) == n
  {
    var last := [('0' as int + n % 10) as char];
    if n < 10 then
      assert Value(last) == 10 * Value([]) + n;
      last
    else
      var s := Decimal(n / 10) + last;
      assert s[..|s| - 1] == Decimal(n / 10);
      s
  }

  function Print(u: WsUrl): (s: string) {
    Text(u.isTls, u.host, Some(Decimal(u.port)), u.path)
  }

  lemma RoundTrip(u: WsUrl)
    requires WellFormed(u)
    ensures Parse(Print(u)) == Ok(u)
  {
    ParseText(u, Some(Decimal(u.port)), u.path);
  }

  /** Printing whatever was parsed and parsing it again changes nothing, so printing is a
      normal form: two texts parse alike exactly when they print alike. */
  lemma Canonical(a: string, b: string)
    requires Parse(a).Ok? && Parse(b).Ok?
    ensures Parse(Print(Parse(a).value)) == Parse(a)
    ensures Parse(a) == Parse(b) <==> Print(Parse(a).value) == Print(Parse(b).value)
  {
    ParseSpells(a, Parse(a).value);
    ParseSpells(b, Parse(b).value);
    RoundTrip(Parse(a).value);
    RoundTrip(Parse(b).value);
  }
}
