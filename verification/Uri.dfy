/** WebSocket URIs: the parser and the printer, and exactly which values survive both. */
module Uri {
  import opened Bytes
  import S = JsonSyntax
  import R = JsonRender
  import T = JsonRoundTrip

  const DEFAULT_PORT: nat := 80
  const DEFAULT_SECURE_PORT: nat := 443

  const WS: seq<byte> := [119, 115]
  const WSS: seq<byte> := [119, 115, 115]
  const HTTP: seq<byte> := [104, 116, 116, 112]
  const HTTPS: seq<byte> := [104, 116, 116, 112, 115]
  const SEPARATOR: seq<byte> := [COLON, SLASH, SLASH]

  datatype Value = Value(scheme: seq<byte>, host: seq<byte>, port: nat, resource: seq<byte>, secure: bool)

  function DefaultPort(secure: bool): nat {
    if secure then DEFAULT_SECURE_PORT else DEFAULT_PORT
  }

  predicate Secure(scheme: seq<byte>) {
    scheme == WSS || scheme == HTTPS
  }

  // ---------- ports ----------

  predicate IsSpace(b: byte) {
    b == 32 || 9 <= b <= 13
  }

  function SpaceEnd(s: seq<byte>): (i: nat)
    ensures i <= |s|
  {
    if s != [] && IsSpace(s[0]) then 1 + SpaceEnd(s[1..]) else 0
  }

  /** The number that `atoi` reads: spaces, a sign and digits, then anything. */
  function Atoi(s: seq<byte>): int {
    var i := SpaceEnd(s);
    var negative := i < |s| && s[i] == MINUS;
    var j := if i < |s| && (s[i] == MINUS || s[i] == 43) then i + 1 else i;
    var v := S.DigitsValue(s, j, S.DigitsEnd(s, j));
    if negative then -v else v
  }

  /** The port a string names, if it names one in range. */
  function PortFromString(port: seq<byte>, secure: bool): (r: Option<nat>)
    ensures r.Some? ==> 1 <= r.value <= 65535
  {
    if port == [] then Some(DefaultPort(secure))
    else
      var t_port := Atoi(port) % 0x1_0000_0000;
      if t_port > 65535 || t_port == 0 then None else Some(t_port)
  }

  // ---------- parsing ----------

  /** Offset of the first byte among `stops`, or the length. */
  function Find(s: seq<byte>, stops: set<byte>): (i: nat)
    ensures i <= |s|
    ensures i < |s| ==> s[i] in stops
    ensures forall j :: 0 <= j < i ==> s[j] !in stops
  {
    if s == [] || s[0] in stops then 0 else 1 + Find(s[1..], stops)
  }

  /** The scheme a string starts with, when at least one byte follows the separator. */
  function SchemeOf(s: seq<byte>): (r: Option<seq<byte>>)
    ensures r.Some? ==> |r.value| + 4 <= |s| && r.value + SEPARATOR <= s
    ensures r.Some? ==> r.value in {WS, WSS, HTTP, HTTPS}
  {
    if |s| >= 7 && s[..6] == WSS + SEPARATOR then Some(WSS)
    else if |s| >= 6 && s[..5] == WS + SEPARATOR then Some(WS)
    else if |s| >= 8 && s[..7] == HTTP + SEPARATOR then Some(HTTP)
    else if |s| >= 9 && s[..8] == HTTPS + SEPARATOR then Some(HTTPS)
    else None
  }

  function Finish(scheme: seq<byte>, host: seq<byte>, port: seq<byte>, rest: seq<byte>): Option<Value> {
    var p := PortFromString(port, Secure(scheme));
    if p == None then None else Some(Value(scheme, host, p.value, [SLASH] + rest, Secure(scheme)))
  }

  /** What follows the colon: a port up to a slash, then the rest of the resource. */
  function WithPort(scheme: seq<byte>, host: seq<byte>, t: seq<byte>): Option<Value> {
    var n := Find(t, {SLASH});
    Finish(scheme, host, t[..n], if n == |t| then [] else t[n + 1..])
  }

  /** What follows the host: nothing, a slash or a colon. */
  function AfterHost(scheme: seq<byte>, host: seq<byte>, t: seq<byte>): Option<Value> {
    if t == [] then Finish(scheme, host, [], [])
    else if t[0] == SLASH then Finish(scheme, host, [], t[1..])
    else if t[0] == COLON then WithPort(scheme, host, t[1..])
    else None
  }

  /** What follows the separator: a host, in brackets or not, and the rest. */
  function ParseHost(scheme: seq<byte>, t: seq<byte>): Option<Value>
    requires t != []
  {
    if t[0] == LBRACKET then
      var n := Find(t[1..], {RBRACKET});
      if n == |t| - 1 then None else AfterHost(scheme, t[1..n + 1], t[n + 2..])
    else
      var n := Find(t, {COLON, SLASH});
      AfterHost(scheme, t[..n], t[n..])
  }

  lemma BracketedHost(scheme: seq<byte>, t: seq<byte>, n: nat)
    requires t != [] && t[0] == LBRACKET && n == Find(t[1..], {RBRACKET})
    ensures ParseHost(scheme, t) == if n == |t| - 1 then None else AfterHost(scheme, t[1..n + 1], t[n + 2..])
  {
  }

  lemma NamedHost(scheme: seq<byte>, t: seq<byte>, n: nat)
    requires t != [] && t[0] != LBRACKET && n == Find(t, {COLON, SLASH})
    ensures ParseHost(scheme, t) == AfterHost(scheme, t[..n], t[n..])
  {
  }

  function Parse(s: seq<byte>): Option<Value> {
    var scheme := SchemeOf(s);
    if scheme == None then None else ParseHost(scheme.value, s[|scheme.value| + 3..])
  }

  // ---------- printing ----------

  function Port(u: Value): seq<byte> {
    if u.port != DefaultPort(u.secure) then [COLON] + R.Decimal(u.port) else []
  }

  function Str(u: Value): seq<byte> {
    u.scheme + SEPARATOR + u.host + Port(u) + u.resource
  }

  // ---------- schemes ----------

  /** The four schemes, and which of them are secure. */
  lemma Schemes()
    ensures WS == Ascii("ws") && WSS == Ascii("wss") && HTTP == Ascii("http") && HTTPS == Ascii("https")
    ensures SEPARATOR == Ascii("://")
    ensures Secure(WSS) && Secure(HTTPS) && !Secure(WS) && !Secure(HTTP)
  {
    assert Ascii("ws")[0] == 119;
    assert |WS| == 2 && |WSS| == 3 && |HTTP| == 4 && |HTTPS| == 5;
  }

  /** A host alone, behind each scheme: the port is 443 where the connection is secure, else 80. */
  lemma {:induction false} DefaultPorts(host: seq<byte>)
    requires host != [] && PlainHost(host)
    ensures Parse(Ascii("ws://") + host) == Some(Value(Ascii("ws"), host, 80, Ascii("/"), false))
    ensures Parse(Ascii("http://") + host) == Some(Value(Ascii("http"), host, 80, Ascii("/"), false))
    ensures Parse(Ascii("wss://") + host) == Some(Value(Ascii("wss"), host, 443, Ascii("/"), true))
    ensures Parse(Ascii("https://") + host) == Some(Value(Ascii("https"), host, 443, Ascii("/"), true))
  {
    hide Parse, Ascii, Secure;
    Schemes();
    SchemeTexts();
    HostAlone(WS, host);
    HostAlone(HTTP, host);
    HostAlone(WSS, host);
    HostAlone(HTTPS, host);
  }

  lemma SchemeTexts()
    ensures Ascii("ws://") == WS + SEPARATOR && Ascii("wss://") == WSS + SEPARATOR
    ensures Ascii("http://") == HTTP + SEPARATOR && Ascii("https://") == HTTPS + SEPARATOR
    ensures Ascii("/") == [SLASH]
  {
  }

  lemma {:induction false} HostAlone(scheme: seq<byte>, host: seq<byte>)
    requires scheme in {WS, WSS, HTTP, HTTPS} && host != [] && PlainHost(host)
    ensures var secure := Secure(scheme);
            Parse(scheme + SEPARATOR + host) == Some(Value(scheme, host, DefaultPort(secure), [SLASH], secure))
  {
    hide Secure, SchemeOf;
    var s := scheme + SEPARATOR + host;
    assert s[..|scheme| + 3] == scheme + SEPARATOR && s[|scheme| + 3..] == host;
    SchemeFound(s, scheme);
    FindAt(host, {COLON, SLASH}, |host|);
    NoPort(Secure(scheme));
    assert [SLASH] + [] == [SLASH] && host[..|host|] == host && host[|host|..] == [];
    NamedHost(scheme, host, |host|);
  }

  // ---------- what survives ----------

  /** A value the constructors build from a supported scheme and a usable port. */
  predicate Regular(u: Value) {
    && u.scheme in {WS, WSS, HTTP, HTTPS} && u.secure == Secure(u.scheme)
    && 1 <= u.port <= 65535
    && u.resource != [] && u.resource[0] == SLASH
  }

  /** A host that is not written in brackets and does not look like a port or a path. */
  predicate PlainHost(host: seq<byte>) {
    COLON !in host && SLASH !in host && (host == [] || host[0] != LBRACKET)
  }

  lemma {:induction false} FindAt(s: seq<byte>, stops: set<byte>, i: nat)
    requires i <= |s| && (i < |s| ==> s[i] in stops)
    requires forall j :: 0 <= j < i ==> s[j] !in stops
    ensures Find(s, stops) == i
    decreases i
  {
    if i > 0 {
      FindAt(s[1..], stops, i - 1);
    }
  }

  /** The decimal form of a number below 2^32 is that port when it is in range, and an error otherwise. */
  lemma {:induction false} PortRoundTrip(p: nat, secure: bool)
    requires p < 0x1_0000_0000
    ensures PortFromString(R.Decimal(p), secure) == if 1 <= p <= 65535 then Some(p) else None
  {
    hide R.Digits, S.DigitsValue, S.DigitsEnd;
    var d := R.Digits(p);
    assert d[0] != 32 && SpaceEnd(d) == 0;
    T.DigitsEndAt(d, 0, |d|);
    assert [] + d + [] == d;
    T.DigitsValueOfDigits([], p, []);
    assert Atoi(d) == p;
  }

  /** Bytes behind the digits are ignored, as `atoi` ignores them. */
  lemma {:induction false} PortIgnoresTail(p: nat, tail: seq<byte>, secure: bool)
    requires p < 0x1_0000_0000 && (tail != [] ==> !S.IsDigit(tail[0]))
    ensures PortFromString(R.Decimal(p) + tail, secure) == PortFromString(R.Decimal(p), secure)
  {
    hide R.Digits, S.DigitsValue, S.DigitsEnd;
    var d := R.Digits(p);
    var s := d + tail;
    PortRoundTrip(p, secure);
    assert s[0] == d[0] && SpaceEnd(s) == 0;
    forall k | 0 <= k < |d| ensures S.IsDigit(s[k]) { assert s[k] == d[k]; }
    T.DigitsEndAt(s, 0, |d|);
    assert [] + d + tail == s;
    T.DigitsValueOfDigits([], p, tail);
    assert Atoi(s) == p;
  }

  lemma {:induction false} SchemeRead(u: Value)
    requires Regular(u)
    ensures SchemeOf(Str(u)) == Some(u.scheme)
    ensures Str(u)[|u.scheme| + 3..] == u.host + Port(u) + u.resource
  {
    hide Port, SchemeOf;
    var rest := u.host + Port(u) + u.resource;
    var head := u.scheme + SEPARATOR;
    assert Str(u) == head + rest;
    assert |rest| >= 1;
    assert Str(u)[..|head|] == head && Str(u)[|head|..] == rest;
    SchemeFound(Str(u), u.scheme);
  }

  lemma {:induction false} SchemeFound(s: seq<byte>, scheme: seq<byte>)
    requires scheme in {WS, WSS, HTTP, HTTPS} && |s| >= |scheme| + 4 && s[..|scheme| + 3] == scheme + SEPARATOR
    ensures SchemeOf(s) == Some(scheme)
  {
    if scheme == WS {
      assert s[2] == s[..5][2] == COLON;
      if |s| >= 7 { assert s[..6][2] == COLON && (WSS + SEPARATOR)[2] == 115; }
    } else if scheme == HTTP {
      OtherScheme(s, HTTP);
    } else if scheme == HTTPS {
      OtherScheme(s, HTTPS);
      assert s[4] == s[..8][4] == 115;
      assert s[..7][4] == 115 && (HTTP + SEPARATOR)[4] == COLON;
    }
  }

  lemma OtherScheme(s: seq<byte>, scheme: seq<byte>)
    requires |scheme| >= 4 && scheme[0] == 104 && |s| >= |scheme| + 4 && s[..|scheme| + 3] == scheme + SEPARATOR
    ensures s[..6] != WSS + SEPARATOR && s[..5] != WS + SEPARATOR
  {
    assert s[0] == s[..|scheme| + 3][0] == scheme[0];
    assert s[..6][0] == 104 && (WSS + SEPARATOR)[0] == 119;
    assert s[..5][0] == 104 && (WS + SEPARATOR)[0] == 119;
  }

  /** After its host, a printed URI is read back whole. */
  lemma {:induction false} TailRead(u: Value)
    requires Regular(u)
    ensures AfterHost(u.scheme, u.host, Port(u) + u.resource) == Some(u)
  {
    hide Find, PortFromString;
    var d := R.Decimal(u.port);
    assert u.resource == [SLASH] + u.resource[1..];
    if Port(u) == [] {
      assert Port(u) + u.resource == u.resource;
      NoPort(u.secure);
    } else {
      var t := d + u.resource;
      assert (Port(u) + u.resource)[1..] == t;
      FindAt(t, {SLASH}, |d|);
      PortRoundTrip(u.port, u.secure);
      assert t[..|d|] == d && t[|d| + 1..] == u.resource[1..];
    }
  }

  lemma NoPort(secure: bool)
    ensures PortFromString([], secure) == Some(DefaultPort(secure))
  {
  }

  lemma {:induction false} RepeatedFirst(t: seq<byte>, n: nat, i: nat)
    requires n < |t| && t[1..n + 1] == t[..n] && i <= n
    ensures t[i] == t[0]
    decreases i
  {
    if i > 0 {
      RepeatedFirst(t, n, i - 1);
      assert t[1..n + 1][i - 1] == t[i] && t[..n][i - 1] == t[i - 1];
    }
  }

  lemma AfterHostStops(scheme: seq<byte>, host: seq<byte>, t: seq<byte>)
    requires t != [] && t[0] != SLASH && t[0] != COLON
    ensures AfterHost(scheme, host, t) == None
  {
  }

  lemma AfterHostKeepsHost(scheme: seq<byte>, host: seq<byte>, t: seq<byte>)
    ensures AfterHost(scheme, host, t).Some? ==> AfterHost(scheme, host, t).value.host == host
  {
  }

  /** Printing and parsing give the value back exactly when its host is plain. */
  lemma {:induction false} RoundTrip(u: Value)
    requires Regular(u)
    ensures Parse(Str(u)) == Some(u) <==> PlainHost(u.host)
  {
    hide Port, Find, ParseHost, SchemeOf, Str, Regular, PlainHost;
    SchemeRead(u);
    PortStart(u);
    HostRoundTrip(u);
  }

  lemma {:induction false} HostRoundTrip(u: Value)
    requires Regular(u) && u.host + Port(u) + u.resource != []
    ensures ParseHost(u.scheme, u.host + Port(u) + u.resource) == Some(u) <==> PlainHost(u.host)
  {
    hide Port, ParseHost, Regular, PlainHost;
    PortStart(u);
    var x := Port(u) + u.resource;
    assert u.host + Port(u) + u.resource == u.host + x;
    if (u.host + x)[0] == LBRACKET {
      BracketIsLost(u, x);
    } else {
      HostEndsAt(u, x);
    }
  }

  /** In front of `x`, a host that starts with a bracket is never read back. */
  lemma {:induction false} BracketIsLost(u: Value, x: seq<byte>)
    requires x != [] && (x[0] == COLON || x[0] == SLASH) && (u.host + x)[0] == LBRACKET
    ensures ParseHost(u.scheme, u.host + x) != Some(u) && !PlainHost(u.host)
  {
    hide Find, AfterHost;
    var t, n := u.host + x, |u.host|;
    assert n > 0 && u.host[0] == t[0] && t[n] == x[0] && t[..n] == u.host;
    var k := Find(t[1..], {RBRACKET});
    if k < |t| - 1 {
      AfterHostKeepsHost(u.scheme, t[1..k + 1], t[k + 2..]);
      if t[1..k + 1] == u.host {
        RepeatedFirst(t, n, n);
      }
    }
  }

  /** Any other host is read up to its first colon or slash. */
  lemma {:induction false} HostEndsAt(u: Value, x: seq<byte>)
    requires Regular(u) && x == Port(u) + u.resource
    requires x != [] && (x[0] == COLON || x[0] == SLASH) && (u.host + x)[0] != LBRACKET
    ensures ParseHost(u.scheme, u.host + x) == Some(u) <==> PlainHost(u.host)
  {
    hide Find, AfterHost, Regular, Port;
    var t, n := u.host + x, |u.host|;
    var k := Find(t, {COLON, SLASH});
    AfterHostKeepsHost(u.scheme, t[..k], t[k..]);
    assert t[..n] == u.host && t[n..] == x && t[n] == x[0];
    assert u.host != [] ==> u.host[0] == t[0];
    if PlainHost(u.host) {
      assert forall j :: 0 <= j < n ==> t[j] == u.host[j];
      FindAt(t, {COLON, SLASH}, n);
      TailRead(u);
    }
  }

  lemma PortStart(u: Value)
    requires Regular(u)
    ensures var x := Port(u) + u.resource; x != [] && (x[0] == COLON || x[0] == SLASH)
  {
  }

  // ---------- which strings parse ----------

  /** A URI in its parts; a port or a path may be missing, and a port may be empty. */
  datatype Parts = Parts(scheme: seq<byte>, bracketed: bool, host: seq<byte>, port: Option<seq<byte>>, path: Option<seq<byte>>)

  function HostText(x: Parts): seq<byte> {
    if x.bracketed then [LBRACKET] + x.host + [RBRACKET] else x.host
  }

  /** What follows the host. */
  function TailText(x: Parts): seq<byte> {
    (match x.port case None => [] case Some(p) => [COLON] + p) + (match x.path case None => [] case Some(r) => [SLASH] + r)
  }

  function TextOf(x: Parts): seq<byte> {
    x.scheme + SEPARATOR + (HostText(x) + TailText(x))
  }

  predicate IsUri(x: Parts) {
    && x.scheme in {WS, WSS, HTTP, HTTPS}
    && (if x.bracketed then RBRACKET !in x.host else PlainHost(x.host))
    && (x.port.Some? ==> SLASH !in x.port.value)
    && HostText(x) + TailText(x) != []
  }

  /** What the parts stand for, if the port is one in range. */
  predicate Denotes(x: Parts, u: Value) {
    && u.scheme == x.scheme && u.host == x.host && u.secure == Secure(x.scheme)
    && Some(u.port) == PortFromString(if x.port.Some? then x.port.value else [], u.secure)
    && u.resource == [SLASH] + if x.path.Some? then x.path.value else []
  }

  lemma {:induction false} TailParses(x: Parts, u: Value)
    requires IsUri(x) && Denotes(x, u)
    ensures AfterHost(x.scheme, x.host, TailText(x)) == Some(u)
  {
    hide Find, PortFromString;
    var t := TailText(x);
    if x.port.Some? {
      var p, rest := x.port.value, if x.path.Some? then [SLASH] + x.path.value else [];
      assert t == [COLON] + (p + rest) && t[1..] == p + rest;
      FindAt(t[1..], {SLASH}, |p|);
      assert t[1..][..|p|] == p;
      if x.path.Some? { assert t[1..][|p| + 1..] == x.path.value; }
    } else if x.path.Some? {
      assert t == [SLASH] + x.path.value && t[1..] == x.path.value;
    }
  }

  lemma {:induction false} HostParses(x: Parts, u: Value)
    requires IsUri(x) && Denotes(x, u)
    ensures ParseHost(x.scheme, HostText(x) + TailText(x)) == Some(u)
  {
    hide ParseHost, AfterHost, Denotes, TailText;
    TailParses(x, u);
    if x.bracketed {
      BracketedParses(x.scheme, x.host, TailText(x));
    } else {
      TailStart(x);
      PlainParses(x.scheme, x.host, TailText(x));
    }
  }

  lemma {:induction false} BracketedParses(scheme: seq<byte>, host: seq<byte>, tail: seq<byte>)
    requires RBRACKET !in host
    ensures ParseHost(scheme, [LBRACKET] + host + [RBRACKET] + tail) == AfterHost(scheme, host, tail)
  {
    hide Find, AfterHost, ParseHost;
    var t, n := [LBRACKET] + host + [RBRACKET] + tail, |host|;
    var s := host + [RBRACKET] + tail;
    assert t == [LBRACKET] + s;
    assert t[1..] == s;
    forall j | 0 <= j < n ensures s[j] !in {RBRACKET} { assert s[j] == host[j]; }
    FindAt(s, {RBRACKET}, n);
    assert t[1..n + 1] == host;
    assert t[n + 2..] == tail;
    BracketedHost(scheme, t, n);
  }

  lemma {:induction false} PlainParses(scheme: seq<byte>, host: seq<byte>, tail: seq<byte>)
    requires PlainHost(host) && host + tail != [] && (tail != [] ==> tail[0] == COLON || tail[0] == SLASH)
    ensures ParseHost(scheme, host + tail) == AfterHost(scheme, host, tail)
  {
    hide Find, AfterHost, ParseHost;
    var t, n := host + tail, |host|;
    forall j | 0 <= j < n ensures t[j] !in {COLON, SLASH} { assert t[j] == host[j]; }
    FindAt(t, {COLON, SLASH}, n);
    assert t[..n] == host && t[n..] == tail;
    NamedHost(scheme, t, n);
  }

  lemma TailStart(x: Parts)
    ensures var t := TailText(x); t != [] ==> t[0] == COLON || t[0] == SLASH
  {
  }

  /** What is read behind a host is a port and a path. */
  lemma {:induction false} TailSound(scheme: seq<byte>, host: seq<byte>, t: seq<byte>, bracketed: bool) returns (x: Parts)
    requires AfterHost(scheme, host, t).Some?
    ensures x.scheme == scheme && x.host == host && x.bracketed == bracketed && TailText(x) == t
    ensures (x.port.Some? ==> SLASH !in x.port.value) && Denotes(x, AfterHost(scheme, host, t).value)
  {
    hide Find, PortFromString, Secure;
    if t == [] {
      x := Parts(scheme, bracketed, host, None, None);
    } else if t[0] == SLASH {
      x := Parts(scheme, bracketed, host, None, Some(t[1..]));
    } else {
      var p := t[1..];
      var n := Find(p, {SLASH});
      x := Parts(scheme, bracketed, host, Some(p[..n]), if n == |p| then None else Some(p[n + 1..]));
      assert p == p[..n] + if n == |p| then [] else [SLASH] + p[n + 1..];
      assert t == [COLON] + p;
    }
  }

  lemma {:induction false} HostSound(scheme: seq<byte>, t: seq<byte>) returns (x: Parts)
    requires scheme in {WS, WSS, HTTP, HTTPS} && t != [] && ParseHost(scheme, t).Some?
    ensures IsUri(x) && x.scheme == scheme && HostText(x) + TailText(x) == t && Denotes(x, ParseHost(scheme, t).value)
  {
    hide Find, AfterHost, Denotes, TailText;
    if t[0] == LBRACKET {
      var n := Find(t[1..], {RBRACKET});
      BracketedHost(scheme, t, n);
      x := TailSound(scheme, t[1..n + 1], t[n + 2..], true);
      assert t[1..][n] == t[n + 1];
      var host := t[1..n + 1];
      forall j | 0 <= j < n ensures host[j] != RBRACKET { assert t[1..][j] == host[j]; }
      assert t == [LBRACKET] + t[1..n + 1] + [RBRACKET] + t[n + 2..];
    } else {
      var n := Find(t, {COLON, SLASH});
      NamedHost(scheme, t, n);
      x := TailSound(scheme, t[..n], t[n..], false);
      assert t == t[..n] + t[n..];
    }
  }

  /**
   Which strings parse, and to what: exactly those that are one of the four schemes, a host in
   brackets or a plain one, and maybe a port in range and a path, not all three empty.
   */
  lemma {:induction false} ParsesExactly(s: seq<byte>, u: Value)
    ensures Parse(s) == Some(u) <==> exists x :: IsUri(x) && TextOf(x) == s && Denotes(x, u)
  {
    hide ParseHost, SchemeOf, Denotes, IsUri, HostText, TailText;
    if Parse(s) == Some(u) {
      var scheme := SchemeOf(s).value;
      var t := s[|scheme| + 3..];
      var x := HostSound(scheme, t);
      assert s == scheme + SEPARATOR + t;
      assert IsUri(x) && TextOf(x) == s && Denotes(x, u);
    }
    if x :| IsUri(x) && TextOf(x) == s && Denotes(x, u) {
      HostParses(x, u);
      SchemeStands(x);
    }
  }

  lemma {:induction false} SchemeStands(x: Parts)
    requires IsUri(x)
    ensures var s, t := TextOf(x), HostText(x) + TailText(x);
            SchemeOf(s) == Some(x.scheme) && |s| >= |x.scheme| + 3 && s[|x.scheme| + 3..] == t
  {
    hide SchemeOf, HostText, TailText;
    var s, t := TextOf(x), HostText(x) + TailText(x);
    assert s[..|x.scheme| + 3] == x.scheme + SEPARATOR && s[|x.scheme| + 3..] == t;
    SchemeFound(s, x.scheme);
  }

  /** White space, a sign and digits, and whatever follows the digits: what `atoi` makes of a string. */
  lemma {:induction false} AtoiReads(spaces: seq<byte>, sign: seq<byte>, n: nat, tail: seq<byte>)
    requires forall i :: 0 <= i < |spaces| ==> spaces[i] in Ascii(" \t\n\r") + [11, 12]
    requires sign == [] || sign == [43] || sign == [MINUS]
    requires tail != [] ==> !S.IsDigit(tail[0])
    ensures Atoi(spaces + sign + R.Decimal(n) + tail) == (if sign == [MINUS] then -1 else 1) * n
  {
    hide R.Digits, S.DigitsValue, S.DigitsEnd, SpaceEnd;
    var d, pre := R.Digits(n), spaces + sign;
    var s := spaces + sign + d + tail;
    SpacesOnly(spaces);
    assert s == spaces + (sign + d + tail);
    SpacesSkipped(spaces, sign + d + tail);
    assert s == pre + d + tail;
    forall k | |pre| <= k < |pre| + |d| ensures S.IsDigit(s[k]) { assert s[k] == d[k - |pre|]; }
    T.DigitsEndAt(s, |pre|, |pre| + |d|);
    T.DigitsValueOfDigits(pre, n, tail);
    assert sign == [] ==> s[|spaces|] == d[0];
    assert sign != [] ==> s[|spaces|] == sign[0];
  }

  lemma SpacesOnly(spaces: seq<byte>)
    requires forall i :: 0 <= i < |spaces| ==> spaces[i] in Ascii(" \t\n\r") + [11, 12]
    ensures forall i :: 0 <= i < |spaces| ==> IsSpace(spaces[i])
  {
  }

  lemma {:induction false} SpacesSkipped(spaces: seq<byte>, rest: seq<byte>)
    requires (forall i :: 0 <= i < |spaces| ==> IsSpace(spaces[i])) && (rest != [] ==> !IsSpace(rest[0]))
    ensures SpaceEnd(spaces + rest) == |spaces|
    decreases |spaces|
  {
    if spaces == [] {
      assert spaces + rest == rest;
    } else {
      assert (spaces + rest)[1..] == spaces[1..] + rest;
      SpacesSkipped(spaces[1..], rest);
    }
  }

  // ---------- the class ----------

  class Uri {
    var m_scheme: seq<byte>
    var m_host: seq<byte>
    var m_resource: seq<byte>
    var m_port: nat
    var m_secure: bool
    var m_valid: bool

    function Now(): Value
      reads this
    {
      Value(m_scheme, m_host, m_port, m_resource, m_secure)
    }

    /** Valid with the parsed value exactly when the string parses. */
    constructor (uri_string: seq<byte>)
      ensures m_valid <==> Parse(uri_string).Some?
      ensures m_valid ==> Now() == Parse(uri_string).value
    {
      m_scheme, m_host, m_resource, m_port, m_secure, m_valid := [], [], [], 0, false, false;
      new;
      hide ParseHost, SchemeOf;
      var scheme := SchemeOf(uri_string);
      if scheme == None {
        return;
      }
      m_scheme := scheme.value;
      m_secure := Secure(m_scheme);
      ReadFromHost(uri_string, |m_scheme| + 3);
    }

    method ReadFromHost(s: seq<byte>, it: nat)
      requires it < |s| && m_host == [] && m_secure == Secure(m_scheme) && !m_valid
      modifies this`m_host, this`m_port, this`m_resource, this`m_valid
      ensures m_valid <==> ParseHost(m_scheme, s[it..]).Some?
      ensures m_valid ==> Now() == ParseHost(m_scheme, s[it..]).value
    {
      hide Find, AfterHost, Left, Secure, ParseHost;
      ghost var t := s[it..];
      assert t[0] == s[it];
      if s[it] == LBRACKET {
        var ok, next, state := ReadBracketed(s, it + 1);
        assert s[it + 1..] == t[1..];
        ghost var n := Find(t[1..], {RBRACKET});
        BracketedHost(m_scheme, t, n);
        if !ok {
          if n < |t| - 1 { AfterHostStops(m_scheme, t[1..n + 1], t[n + 2..]); }
          return;
        }
        assert m_host == t[1..n + 1] && s[it + 1 + n + 1..] == t[n + 2..];
        ReadRest(s, next, state, t[n + 2..]);
      } else {
        var next, state := ReadHost(s, it);
        ghost var n := Find(t, {COLON, SLASH});
        NamedHost(m_scheme, t, n);
        assert m_host == t[..n] && s[it + n..] == t[n..];
        ReadRest(s, next, state, t[n..]);
      }
    }

    /** The port, the resource and the verdict. */
    method ReadRest(s: seq<byte>, start: nat, state: int, ghost after: seq<byte>)
      requires (state == 1 || state == 2) && Left(s, start, state, after) && m_secure == Secure(m_scheme) && !m_valid
      modifies this`m_port, this`m_resource, this`m_valid
      ensures m_valid <==> AfterHost(m_scheme, m_host, after).Some?
      ensures m_valid ==> Now() == AfterHost(m_scheme, m_host, after).value
    {
      hide Find, PortFromString;
      var port, it := ReadPort(s, start, state);
      var p := PortFromString(port, m_secure);
      if state == 1 {
        ghost var t := after[1..];
        ghost var n := Find(t, {SLASH});
        assert s[start..] == t && s[start..start + n] == t[..n];
        assert s[it..] == if n == |t| then [] else t[n + 1..];
      } else {
        assert s[it..] == if after == [] then [] else after[1..];
      }
      if p == None {
        return;
      }
      m_port := p.value;
      m_resource := [SLASH] + s[it..];
      m_valid := true;
    }

    /** What is left to read at `it`: nothing or the resource in state 2, the port in state 1. */
    static predicate Left(s: seq<byte>, it: nat, state: int, after: seq<byte>) {
      && it <= |s|
      && (state == 2 ==> (after == [] && it == |s|) || (after != [] && after[0] == SLASH && s[it..] == after[1..]))
      && (state == 1 ==> after != [] && after[0] == COLON && s[it..] == after[1..])
    }

    /** An IPv6 literal up to its closing bracket. */
    method ReadBracketed(s: seq<byte>, start: nat) returns (ok: bool, it: nat, state: int)
      requires start <= |s|
      modifies this`m_host
      ensures var n := Find(s[start..], {RBRACKET});
              var after := if start + n < |s| then s[start + n + 1..] else [];
              && (ok <==> start + n < |s| && (after == [] || after[0] == SLASH || after[0] == COLON))
              && (ok ==> m_host == old(m_host) + s[start..start + n] && (state == 1 || state == 2) && Left(s, it, state, after))
    {
      hide Find;
      it, state := start, 0;
      var temp := it;
      while temp != |s|
        invariant start <= temp <= |s|
        invariant forall j :: start <= j < temp ==> s[j] != RBRACKET
        decreases |s| - temp
      {
        if s[temp] == RBRACKET {
          break;
        }
        temp := temp + 1;
      }
      FindAt(s[start..], {RBRACKET}, temp - start);
      if temp == |s| {
        return false, it, state;
      }
      m_host := m_host + s[it..temp];
      it := temp + 1;
      ok := true;
      if it == |s| {
        state := 2;
      } else if s[it] == SLASH {
        state := 2;
        it := it + 1;
      } else if s[it] == COLON {
        state := 1;
        it := it + 1;
      } else {
        ok := false;
      }
    }

    /** A host name or IPv4 address up to a colon, a slash or the end. */
    method ReadHost(s: seq<byte>, start: nat) returns (it: nat, state: int)
      requires start <= |s|
      modifies this`m_host
      ensures var n := Find(s[start..], {COLON, SLASH});
              m_host == old(m_host) + s[start..start + n] && (state == 1 || state == 2) && Left(s, it, state, s[start + n..])
    {
      hide Find;
      it, state := start, 0;
      ghost var end := start;
      while state == 0
        invariant start <= end <= |s| && (state == 0 ==> it == end)
        invariant m_host == old(m_host) + s[start..end]
        invariant forall j :: start <= j < end ==> s[j] != COLON && s[j] != SLASH
        invariant state == 0 || state == 1 || state == 2
        invariant state == 1 ==> end < |s| && s[end] == COLON && it == end + 1
        invariant state == 2 ==> end < |s| && s[end] == SLASH && it == end + 1
        decreases |s| - end, if state == 0 then 1 else 0
      {
        if it == |s| {
          state := 2;
          HostEnds(s, start, end, it, state);
          return;
        } else if s[it] == SLASH {
          state := 2;
        } else if s[it] == COLON {
          state := 1;
        } else {
          m_host := m_host + [s[it]];
          assert s[start..end + 1] == s[start..end] + [s[end]];
          end := end + 1;
        }
        it := it + 1;
      }
      HostEnds(s, start, end, it, state);
    }

    static lemma HostEnds(s: seq<byte>, start: nat, end: nat, it: nat, state: int)
      requires start <= end <= |s| && forall j :: start <= j < end ==> s[j] != COLON && s[j] != SLASH
      requires (state == 2 && it == end == |s|)
               || (end < |s| && it == end + 1 && s[end] == if state == 1 then COLON else SLASH)
      ensures Find(s[start..], {COLON, SLASH}) == end - start
      ensures Left(s, it, state, s[end..])
    {
      FindAt(s[start..], {COLON, SLASH}, end - start);
    }

    /** The port, when there is one, up to a slash or the end. */
    method ReadPort(s: seq<byte>, start: nat, state0: int) returns (port: seq<byte>, it: nat)
      requires start <= |s|
      ensures state0 != 1 ==> port == [] && it == start
      ensures state0 == 1 ==>
                var n := Find(s[start..], {SLASH});
                port == s[start..start + n] && it == (if start + n < |s| then start + n + 1 else |s|)
    {
      hide Find;
      it, port := start, [];
      var state := state0;
      ghost var end := start;
      while state == 1
        invariant start <= end <= |s| && (state == 1 ==> it == end)
        invariant port == s[start..end]
        invariant forall j :: start <= j < end ==> s[j] != SLASH
        invariant state0 != 1 ==> state == state0 && it == start && end == start
        invariant state0 == 1 && state != 1 ==> end < |s| && s[end] == SLASH && it == end + 1
        decreases |s| - end, if state == 1 then 1 else 0
      {
        if it == |s| {
          break;
        } else if s[it] == SLASH {
          state := 3;
        } else {
          port := port + [s[it]];
          assert s[start..end + 1] == s[start..end] + [s[end]];
          end := end + 1;
        }
        it := it + 1;
      }
      if state0 == 1 {
        FindAt(s[start..], {SLASH}, end - start);
      }
    }
  }
}
