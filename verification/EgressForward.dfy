/** What a plain-HTTP forward and a CONNECT tunnel send upstream: target rewriting, header stripping,
    and which client bytes survive (sections 3.2 and 5 of RFC 9112). */
module EgressForward {
  import opened Text
  import opened Decimal
  import opened EgressHead
  import opened EgressReader

  // ------------------------------------------------------------------ headers

  /** Header lookup by a name already in lower case: the first match. */
  function Lookup(hs: seq<Header>, name: string): Option<string> {
    if hs == [] then None
    else if hs[0].name == name then Some(hs[0].value)
    else Lookup(hs[1..], name)
  }

  /** The header at `i` is the first of its name. */
  predicate FirstNamed(hs: seq<Header>, name: string, i: int) {
    0 <= i < |hs| && hs[i].name == name && forall j :: 0 <= j < i ==> hs[j].name != name
  }

  /** Lookup finds the value of the first header of that name, and nothing exactly when there is none. */
  lemma {:induction false} LookupExactly(hs: seq<Header>, name: string)
    ensures forall v :: Lookup(hs, name) == Some(v) <==> exists i :: FirstNamed(hs, name, i) && hs[i].value == v
    ensures Lookup(hs, name).None? <==> forall i :: 0 <= i < |hs| ==> hs[i].name != name
  {
    if hs != [] {
      LookupExactly(hs[1..], name);
      assert forall i :: 0 < i < |hs| ==> hs[i] == hs[1..][i - 1];
      forall v ensures Lookup(hs, name) == Some(v) <==> exists i :: FirstNamed(hs, name, i) && hs[i].value == v {
        LookupMoves(hs, name, v);
      }
    }
  }

  lemma LookupMoves(hs: seq<Header>, name: string, v: string)
    requires hs != []
    ensures (exists i :: FirstNamed(hs, name, i) && hs[i].value == v) <==>
            if hs[0].name == name then hs[0].value == v
            else exists i :: FirstNamed(hs[1..], name, i) && hs[1..][i].value == v
  {
    assert forall i :: 0 < i < |hs| ==> hs[i] == hs[1..][i - 1];
    if hs[0].name == name {
      assert FirstNamed(hs, name, 0);
    } else {
      if i :| FirstNamed(hs, name, i) && hs[i].value == v {
        assert FirstNamed(hs[1..], name, i - 1) && hs[1..][i - 1].value == v;
      }
      if i :| FirstNamed(hs[1..], name, i) && hs[1..][i].value == v {
        assert FirstNamed(hs, name, i + 1) && hs[i + 1].value == v;
      }
    }
  }

  lemma LookupIs(hs: seq<Header>, name: string, i: nat)
    requires FirstNamed(hs, name, i)
    ensures Lookup(hs, name) == Some(hs[i].value)
  {
    LookupExactly(hs, name);
  }

  function Without(hs: seq<Header>, name: string): seq<Header> {
    if hs == [] then []
    else (if hs[0].name == name then [] else [hs[0]]) + Without(hs[1..], name)
  }

  /** All values carried under one name, in order. */
  function ValuesOf(hs: seq<Header>, name: string): seq<string> {
    if hs == [] then []
    else (if hs[0].name == name then [hs[0].value] else []) + ValuesOf(hs[1..], name)
  }

  /** Removing a name removes every value under it, and no other name loses, gains or reorders one. */
  lemma {:induction false} WithoutRemovesExactly(hs: seq<Header>, name: string, other: string)
    ensures ValuesOf(Without(hs, name), other) == if other == name then [] else ValuesOf(hs, other)
    ensures |Without(hs, name)| == |hs| - |ValuesOf(hs, name)|
  {
    if hs != [] {
      WithoutRemovesExactly(hs[1..], name, other);
      var keep: seq<Header> := if hs[0].name == name then [] else [hs[0]];
      assert (keep + Without(hs[1..], name))[|keep|..] == Without(hs[1..], name);
    }
  }

  lemma Join(keep: seq<Header>, a: seq<Header>, b: seq<Header>)
    ensures keep + (a + b) == keep + a + b
  {
  }

  /** Removal looks at one header after the other and keeps the others as they stand. */
  lemma {:induction false} WithoutConcat(a: seq<Header>, b: seq<Header>, name: string)
    ensures Without(a + b, name) == Without(a, name) + Without(b, name)
    ensures |a| == 1 ==> Without(a, name) == if a[0].name == name then [] else a
  {
    if a == [] {
      assert a + b == b;
    } else {
      WithoutConcat(a[1..], b, name);
      assert (a + b)[0] == a[0] && (a + b)[1..] == a[1..] + b;
      Join(if a[0].name == name then [] else [a[0]], Without(a[1..], name), Without(b, name));
    }
  }

  lemma {:induction false} WithoutSubset(hs: seq<Header>, name: string)
    ensures forall h :: h in Without(hs, name) ==> h in hs
  {
    if hs != [] { WithoutSubset(hs[1..], name); }
  }

  method Retain(hs: seq<Header>, name: string) returns (kept: seq<Header>)
    ensures kept == Without(hs, name)
  {
    kept := [];
    var i := 0;
    assert hs[0..] == hs;
    while i < |hs|
      invariant 0 <= i <= |hs|
      invariant kept + Without(hs[i..], name) == Without(hs, name)
    {
      ghost var more := Without(hs[i + 1..], name);
      assert hs[i..][1..] == hs[i + 1..];
      assert kept + [] + more == kept + more && kept + ([hs[i]] + more) == kept + [hs[i]] + more;
      if hs[i].name != name {
        kept := kept + [hs[i]];
      }
      i := i + 1;
    }
    assert kept + [] == kept;
  }

  /** The request head as the connection handler holds it, stripped in place. */
  class RequestHead {
    var verb: string
    var target: string
    var version: string
    var headers: seq<Header>
    var headLen: nat

    constructor (h: Head)
      ensures Value() == h
    {
      verb, target, version, headers, headLen := h.verb, h.target, h.version, h.headers, h.headLen;
    }

    function Value(): Head
      reads this
    {
      Head(verb, target, version, headers, headLen)
    }

    method GetHeader(name: string) returns (r: Option<string>)
      ensures r == Lookup(headers, Lower(name))
      ensures r.Some? ==> exists i :: FirstNamed(headers, Lower(name), i) && r == Some(headers[i].value)
      ensures r.None? ==> forall i :: 0 <= i < |headers| ==> headers[i].name != Lower(name)
    {
      LookupExactly(headers, Lower(name));
      var lower := Lower(name);
      var i := 0;
      assert headers[0..] == headers;
      while i < |headers|
        invariant 0 <= i <= |headers|
        invariant Lookup(headers, lower) == Lookup(headers[i..], lower)
      {
        if headers[i].name == lower {
          return Some(headers[i].value);
        }
        assert headers[i..][1..] == headers[i + 1..];
        i := i + 1;
      }
      return None;
    }

    method RemoveHeader(name: string) returns (removed: nat)
      modifies this`headers
      ensures headers == Without(old(headers), Lower(name))
      ensures removed == |ValuesOf(old(headers), Lower(name))|
    {
      var before := |headers|;
      headers := Retain(headers, Lower(name));
      WithoutRemovesExactly(old(headers), Lower(name), Lower(name));
      removed := before - |headers|;
    }
  }

  // ------------------------------------------------------------------ targets

  function StripPrefix(s: string, prefix: string): Option<string> {
    if prefix <= s then Some(s[|prefix|..]) else None
  }

  /** The part after an absolute-form scheme, `http` tried first. */
  function AfterScheme(target: string): Option<string> {
    match StripPrefix(target, "http://")
    case Some(rest) => Some(rest)
    case None => StripPrefix(target, "https://")
  }

  function AbsoluteFormAuthority(target: string): Option<string> {
    match AfterScheme(target)
    case None => None
    case Some(rest) =>
      match Find(rest, "/")
      case None => Some(rest)
      case Some(i) => Some(rest[..i])
  }

  /** What is left for the origin server; `/` when the URL has no slash after its authority. */
  function OriginForm(target: string): string {
    match AfterScheme(target)
    case None => "/"
    case Some(rest) =>
      match Find(rest, "/")
      case None => "/"
      case Some(i) => rest[i..]
  }

  /** Rewriting an absolute target loses no byte exactly when a slash follows the scheme; without one
      the whole rest, a query included, is taken for the authority. */
  lemma AbsoluteTargetConserved(target: string)
    requires AfterScheme(target).Some?
    ensures var rest := AfterScheme(target).value;
            AbsoluteFormAuthority(target).value + OriginForm(target) == rest <==> '/' in rest
    ensures '/' !in AbsoluteFormAuthority(target).value
    ensures OriginForm(target) != "" && OriginForm(target)[0] == '/'
  {
    var rest := AfterScheme(target).value;
    if Find(rest, "/").Some? {
      var i := Find(rest, "/").value;
      CutAt(rest, '/', i);
      assert rest[i..][0] == '/';
    } else {
      FindSpec(rest, "/");
      forall k | 0 <= k < |rest| ensures rest[k] != '/' {
        assert !At(rest, "/", k);
        assert rest[k..k + 1] == [rest[k]];
      }
      assert |rest + "/"| != |rest|;
    }
  }

  function SplitHostPort(authority: string, defaultPort: nat): (string, nat) {
    match LastIndex(authority, ':')
    case None => (authority, defaultPort)
    case Some(i) =>
      match ParseU16(authority[i + 1..])
      case None => (authority, defaultPort)
      case Some(p) => (authority[..i], p)
  }

  /** The text behind the last colon would be read as a port. */
  predicate EndsInPort(host: string) {
    LastIndex(host, ':').Some? && ParseU16(host[LastIndex(host, ':').value + 1..]).Some?
  }

  /** A host alone keeps the default port exactly when it does not itself end like one with a port; bracketed
      IPv6 literals do not. */
  lemma BareHostExactly(host: string, defaultPort: nat)
    ensures SplitHostPort(host, defaultPort) == (host, defaultPort) <==> !EndsInPort(host)
  {
    var i := LastIndex(host, ':');
    if i.Some? { assert |host[..i.value]| < |host|; }
  }

  /** An explicit port is recovered for every host and every text of a port, `080` and `+80` included. */
  lemma HostPortRoundTrip(host: string, port: string, defaultPort: nat)
    requires ParseU16(port).Some?
    ensures SplitHostPort(host + ":" + port, defaultPort) == (host, ParseU16(port).value)
  {
    PortChars(port, ':');
    LastIndexIs(host, ':', port);
    var s := host + ":" + port;
    assert s[|host| + 1..] == port && s[..|host|] == host;
  }

  function HostPortText(host: string, port: Option<string>): string {
    if port.Some? then host + ":" + port.value else host
  }

  /** The port, if there is one, can be read as such; if there is none, the host does not end like one. */
  predicate PortReadable(host: string, port: Option<string>) {
    if port.Some? then ParseU16(port.value).Some? else !EndsInPort(host)
  }

  function PortOr(port: Option<string>, defaultPort: nat): nat
    requires port.Some? ==> ParseU16(port.value).Some?
  {
    if port.Some? then ParseU16(port.value).value else defaultPort
  }

  lemma HostPortSplits(host: string, port: Option<string>, defaultPort: nat)
    requires PortReadable(host, port)
    ensures SplitHostPort(HostPortText(host, port), defaultPort) == (host, PortOr(port, defaultPort))
  {
    if port.Some? {
      HostPortRoundTrip(host, port.value, defaultPort);
    } else {
      BareHostExactly(host, defaultPort);
    }
  }

  // ------------------------------------------------------------------ plain HTTP

  datatype Route = MissingHost | Route(host: string, port: nat, target: string, tls: bool)

  function RouteOf(h: Head): Route {
    var tls := "https://" <= h.target;
    var defaultPort := if tls then 443 else 80;
    match AbsoluteFormAuthority(h.target)
    case Some(authority) =>
      var (host, port) := SplitHostPort(authority, defaultPort);
      Route(host, port, OriginForm(h.target), tls)
    case None =>
      match Lookup(h.headers, "host")
      case None => MissingHost
      case Some(value) =>
        var (host, port) := SplitHostPort(value, defaultPort);
        Route(host, port, h.target, tls)
  }

  function Scheme(tls: bool): string { if tls then "https://" else "http://" }

  lemma SchemeStripped(tls: bool, rest: string)
    ensures AfterScheme(Scheme(tls) + rest) == Some(rest) && ("https://" <= Scheme(tls) + rest <==> tls)
  {
    var target := Scheme(tls) + rest;
    assert target[..|Scheme(tls)|] == Scheme(tls) && target[|Scheme(tls)|..] == rest;
    assert target[4] == Scheme(tls)[4];
  }

  lemma AuthorityCut(tls: bool, authority: string, path: string)
    requires '/' !in authority && (path != "" ==> path[0] == '/')
    ensures var target := Scheme(tls) + (authority + path);
            && AbsoluteFormAuthority(target) == Some(authority)
            && OriginForm(target) == if path == "" then "/" else path
  {
    var rest := authority + path;
    SchemeStripped(tls, rest);
    if path == "" {
      assert rest == authority;
      SlashlessHasNoCut(authority);
    } else {
      forall j | 0 <= j < |authority| ensures rest[j] != '/' { assert rest[j] == authority[j]; }
      FindChar(rest, '/', |authority|);
      assert rest[..|authority|] == authority && rest[|authority|..] == path;
    }
  }

  lemma SlashlessHasNoCut(s: string)
    requires '/' !in s
    ensures Find(s, "/").None?
  {
    forall j ensures !At(s, "/", j) {
      if 0 <= j < |s| { assert s[j..j + 1][0] == s[j]; }
    }
    FindNone(s, "/");
  }

  lemma HostPortHasNoSlash(host: string, port: Option<string>)
    requires '/' !in host && (port.Some? ==> ParseU16(port.value).Some?)
    ensures '/' !in HostPortText(host, port)
  {
    if port.Some? { PortChars(port.value, '/'); }
  }

  /** An absolute target goes to the host and port it names, whatever the Host header says, and is cut to
      its path, or to a slash if it has none; without a port its scheme decides. */
  lemma AbsoluteTargetRouted(h: Head, tls: bool, host: string, port: Option<string>, path: string)
    requires '/' !in host && (path != "" ==> path[0] == '/') && PortReadable(host, port)
    requires h.target == Scheme(tls) + (HostPortText(host, port) + path)
    ensures RouteOf(h) == Route(host, PortOr(port, if tls then 443 else 80), if path == "" then "/" else path, tls)
  {
    var authority := HostPortText(host, port);
    HostPortHasNoSlash(host, port);
    HostPortSplits(host, port, if tls then 443 else 80);
    AuthorityCut(tls, authority, path);
    SchemeStripped(tls, authority + path);
  }

  /** Any other target is kept as it is and sent in the clear to what the first Host header names, on port 80
      if it names none. */
  lemma OriginTargetRouted(h: Head, i: nat, host: string, port: Option<string>)
    requires AfterScheme(h.target).None? && PortReadable(host, port)
    requires FirstNamed(h.headers, "host", i) && h.headers[i].value == HostPortText(host, port)
    ensures RouteOf(h) == Route(host, PortOr(port, 80), h.target, false)
  {
    LookupIs(h.headers, "host", i);
    HostPortSplits(host, port, 80);
  }

  /** There is nowhere to send a request exactly when its target names no scheme and it has no Host header. */
  lemma MissingHostExactly(h: Head)
    ensures RouteOf(h).MissingHost? <==>
            && !("http://" <= h.target) && !("https://" <= h.target)
            && forall i :: 0 <= i < |h.headers| ==> h.headers[i].name != "host"
  {
    LookupExactly(h.headers, "host");
  }

  function Stripped(hs: seq<Header>): seq<Header> {
    Without(Without(hs, "proxy-connection"), "proxy-authorization")
  }

  /** The head the upstream is meant to see. */
  function Rewritten(h: Head): Head
    requires RouteOf(h).Route?
  {
    h.(target := RouteOf(h).target, headers := Stripped(h.headers))
  }

  /** Bytes an accepted, routable request puts on the upstream socket. */
  function SentUpstream(o: Outcome): string
    requires o.Accepted? && RouteOf(o.head).Route? && o.head.headLen <= |o.buf|
  {
    Print(Rewritten(o.head)) + o.buf[o.head.headLen..] + Concat(o.rest)
  }

  /** Where the connection handler decides to send the request, and with which target. */
  method ChooseRoute(head: RequestHead) returns (route: Route)
    ensures route == RouteOf(head.Value())
  {
    var hostHeader := head.GetHeader("host");
    assert Lower("host") == "host";
    var tls := "https://" <= head.target;
    var defaultPort := if tls then 443 else 80;
    var authority := AbsoluteFormAuthority(head.target);
    if authority.Some? {
      var (host, port) := SplitHostPort(authority.value, defaultPort);
      route := Route(host, port, OriginForm(head.target), tls);
    } else if hostHeader.Some? {
      var (host, port) := SplitHostPort(hostHeader.value, defaultPort);
      route := Route(host, port, head.target, tls);
    } else {
      route := MissingHost;
    }
  }

  /** Remove the proxy-only headers in place. */
  method StripProxyHeaders(head: RequestHead)
    modifies head`headers
    ensures head.headers == Stripped(old(head.headers))
  {
    assert Lower("proxy-connection") == "proxy-connection";
    assert Lower("proxy-authorization") == "proxy-authorization";
    var _ := head.RemoveHeader("proxy-connection");
    var _ := head.RemoveHeader("proxy-authorization");
  }

  /** Forward an accepted request whose dial and writes succeed; None answers 400 to the client. */
  method HandlePlainHttp(h: Head, buf: string, rest: seq<string>) returns (route: Route, upstream: Option<string>)
    requires h.headLen <= |buf|
    ensures route == RouteOf(h)
    ensures upstream == if route.MissingHost? then None else Some(SentUpstream(Accepted(h, buf, rest)))
  {
    var head := new RequestHead(h);
    route := ChooseRoute(head);
    if route.MissingHost? {
      return route, None;
    }
    StripProxyHeaders(head);
    var wire := SerializeRequest(head.Value(), Some(route.target));
    assert wire == Print(Rewritten(h));
    var body := if |buf| > head.headLen then buf[head.headLen..] else "";
    assert body == buf[h.headLen..];
    var sent := CopyRest(wire + body, rest);
    return route, Some(sent);
  }

  /** The client-to-upstream half of the bidirectional copy. */
  method CopyRest(first: string, rest: seq<string>) returns (sent: string)
    ensures sent == first + Concat(rest)
  {
    sent := first;
    var i := 0;
    assert rest[0..] == rest;
    while i < |rest|
      invariant 0 <= i <= |rest|
      invariant sent + Concat(rest[i..]) == first + Concat(rest)
    {
      ghost var more := Concat(rest[i + 1..]);
      assert rest[i..][1..] == rest[i + 1..];
      assert sent + (rest[i] + more) == sent + rest[i] + more;
      sent := sent + rest[i];
      i := i + 1;
    }
    assert sent + "" == sent;
  }

  ghost predicate Clean(s: string) { NoCrlf(s) && Utf8(s) }

  lemma CleanSplit(a: string, b: string)
    requires Clean(a + " " + b)
    ensures Clean(a) && Clean(b)
  {
    var s := a + " " + b;
    var n := |a|;
    assert s[..n] == s[0..n] == a && s[n + 1..] == s[n + 1..|s|] == b;
    SliceLacks(s, CRLF, 0, n);
    SliceLacks(s, CRLF, n + 1, |s|);
    Utf8SplitAround(s, n);
  }

  lemma CleanJoin(a: string, b: string)
    requires Clean(a) && Clean(b)
    ensures Clean(a + " " + b)
  {
    NoCrlfSingle(" ");
    NoCrlfConcat(a, " ");
    NoCrlfConcat(a + " ", b);
    assert Utf8(" ") by { assert " "[1..] == ""; }
    Utf8Concat(a, " ");
    Utf8Concat(a + " ", b);
  }

  lemma CleanSuffix(s: string, k: nat)
    requires Clean(s) && k <= |s| && (k < |s| ==> s[k] <= '\U{007F}')
    ensures Clean(s[k..])
  {
    assert s[k..] == s[k..|s|];
    SliceLacks(s, CRLF, k, |s|);
    Utf8Split(s, k);
  }

  /** The origin form is a suffix of the target that starts with a slash, or just a slash. */
  lemma OriginIsSuffix(target: string)
    ensures OriginForm(target) == "/" ||
            exists k :: 0 <= k < |target| && target[k] == '/' && OriginForm(target) == target[k..]
  {
    if AfterScheme(target).Some? && Find(AfterScheme(target).value, "/").Some? {
      var rest := AfterScheme(target).value;
      var i := Find(rest, "/").value;
      CutAt(rest, '/', i);
      var k := |target| - |rest| + i;
      assert rest == target[|target| - |rest|..];
      assert target[k] == '/' && rest[i..] == target[k..];
    }
  }

  lemma OriginClean(target: string)
    requires Clean(target) && ' ' !in target
    ensures Clean(OriginForm(target)) && ' ' !in OriginForm(target)
  {
    OriginIsSuffix(target);
    if OriginForm(target) == "/" {
      NoCrlfSingle("/");
      assert "/"[1..] == "";
    } else {
      var k :| 0 <= k < |target| && target[k] == '/' && OriginForm(target) == target[k..];
      CleanSuffix(target, k);
    }
  }

  lemma RewrittenLineOk(h: Head)
    requires Clean(RequestLine(h)) && ' ' !in h.target && RouteOf(h).Route?
    ensures Clean(RequestLine(Rewritten(h))) && ' ' !in RouteOf(h).target
  {
    var t := RouteOf(h).target;
    assert RequestLine(h) == h.verb + " " + (h.target + " " + h.version);
    CleanSplit(h.verb, h.target + " " + h.version);
    CleanSplit(h.target, h.version);
    OriginClean(h.target);
    CleanJoin(h.verb, t);
    CleanJoin(h.verb + " " + t, h.version);
  }

  lemma RewrittenIsWellFormed(h: Head)
    requires WellFormed(h) && RouteOf(h).Route?
    ensures WellFormed(Rewritten(h))
  {
    RewrittenLineOk(h);
    var g := Rewritten(h);
    assert |RequestLine(g)| >= 2;
    WithoutSubset(h.headers, "proxy-connection");
    WithoutSubset(Without(h.headers, "proxy-connection"), "proxy-authorization");
    forall i | 0 <= i < |g.headers| ensures HeaderOk(g.headers[i]) && Utf8(HeaderLine(g.headers[i])) {
      assert g.headers[i] in h.headers;
    }
  }

  lemma SentIsHeadThenRest(o: Outcome, stream: string)
    requires o.Accepted? && RouteOf(o.head).Route? && o.head.headLen <= |o.buf|
    requires o.buf + Concat(o.rest) == stream
    ensures SentUpstream(o) == Print(Rewritten(o.head)) + stream[o.head.headLen..]
  {
    var n := o.head.headLen;
    var g := Print(Rewritten(o.head));
    assert o.buf[n..] + Concat(o.rest) == stream[n..];
    assert g + o.buf[n..] + Concat(o.rest) == g + (o.buf[n..] + Concat(o.rest));
  }

  /** What goes upstream is the rewritten head followed by exactly the client bytes behind the head. */
  lemma ForwardedBytes(stream: string, chunks: seq<string>)
    requires Cuts(chunks, stream) && ReadFrom("", chunks).Accepted?
    requires RouteOf(ReadFrom("", chunks).head).Route?
    ensures var o := ReadFrom("", chunks);
            && o.head.headLen <= |o.buf| && o.head.headLen <= |stream|
            && SentUpstream(o) == Print(Rewritten(o.head)) + stream[o.head.headLen..]
  {
    AcceptedKeepsBytes("", chunks);
    assert "" + Concat(chunks) == stream;
    SentIsHeadThenRest(ReadFrom("", chunks), stream);
  }

  /** An upstream that parses those bytes reads the client's method and version, the target of the route and the
      headers without the proxy's, and finds the client's body, whole, right behind them. */
  lemma UpstreamReadsRewrittenHead(stream: string, chunks: seq<string>)
    requires Cuts(chunks, stream) && ReadFrom("", chunks).Accepted?
    requires RouteOf(ReadFrom("", chunks).head).Route?
    ensures var o := ReadFrom("", chunks);
            && o.head.headLen <= |o.buf| && o.head.headLen <= |stream|
            && var sent := SentUpstream(o);
               match ParseHead(sent)
               case Complete(g) =>
                 && g.verb == o.head.verb && g.target == RouteOf(o.head).target && g.version == o.head.version
                 && g.headers == Stripped(o.head.headers)
                 && g.headLen <= |sent| && sent[g.headLen..] == stream[o.head.headLen..]
               case _ => false
  {
    var o := ReadFrom("", chunks);
    ForwardedBytes(stream, chunks);
    AcceptedKeepsBytes("", chunks);
    ParsedIsWellFormed("" + Concat(chunks));
    RewrittenIsWellFormed(o.head);
    var body := stream[o.head.headLen..];
    PrintThenParse(Rewritten(o.head), body);
    assert (Print(Rewritten(o.head)) + body)[|Print(Rewritten(o.head))|..] == body;
  }

  /** The head the upstream reads has no proxy header left and every other header untouched. */
  lemma ForwardedHeaders(h: Head, name: string)
    requires RouteOf(h).Route?
    ensures ValuesOf(Rewritten(h).headers, name) ==
            if name == "proxy-connection" || name == "proxy-authorization" then [] else ValuesOf(h.headers, name)
  {
    WithoutRemovesExactly(h.headers, "proxy-connection", name);
    WithoutRemovesExactly(Without(h.headers, "proxy-connection"), "proxy-authorization", name);
  }

  // ------------------------------------------------------------------ CONNECT and the dispatch

  /** The method is compared without regard to case. */
  predicate IsConnect(h: Head) { Lower(h.verb) == "connect" }

  /** The tunnel copies the socket from where reading stopped; the buffer stays behind. */
  function TunnelBytes(o: Outcome): string
    requires o.Accepted?
  {
    Concat(o.rest)
  }

  /** What an accepted request puts on its upstream socket; None when it names no upstream. */
  function Upstream(o: Outcome): Option<string>
    requires o.Accepted? && o.head.headLen <= |o.buf|
  {
    if IsConnect(o.head) then Some(TunnelBytes(o))
    else if RouteOf(o.head).Route? then Some(SentUpstream(o))
    else None
  }

  /** A tunnel to the target's host and port whose dial and writes succeed. */
  method HandleConnect(h: Head, rest: seq<string>) returns (host: string, port: nat, upstream: string)
    ensures (host, port) == SplitHostPort(h.target, 443)
    ensures upstream == Concat(rest)
  {
    var (name, number) := SplitHostPort(h.target, 443);
    host, port := name, number;
    upstream := CopyRest("", rest);
    assert "" + Concat(rest) == Concat(rest);
  }

  /** A client connection from its first read to its upstream socket; the body of a tunnel does not get the
      buffer that the head was read into. */
  method HandleConnection(chunks: seq<string>) returns (upstream: Option<string>)
    requires Reads(chunks)
    ensures var o := ReadFrom("", chunks);
            if o.Accepted? then o.head.headLen <= |o.buf| && upstream == Upstream(o) else upstream == None
  {
    var o, longest := ReadHead(chunks);
    if !o.Accepted? {
      return None;
    }
    AcceptedKeepsBytes("", chunks);
    if Lower(o.head.verb) == "connect" {
      var host, port, sent := HandleConnect(o.head, o.rest);
      return Some(sent);
    }
    var route, sent := HandlePlainHttp(o.head, o.buf, o.rest);
    return sent;
  }

  lemma NothingInFront(front: string, back: string)
    ensures back == front + back <==> front == ""
  {
    if front == "" { assert front + back == back; }
  }

  lemma DropFront(a: string, b: string, n: nat)
    requires n <= |a|
    ensures (a + b)[n..] == a[n..] + b
  {
  }

  lemma BufferedThenRest(stream: string, chunks: seq<string>)
    requires Cuts(chunks, stream) && ReadFrom("", chunks).Accepted?
    ensures var o := ReadFrom("", chunks);
            && o.head.headLen <= |o.buf| <= |stream| && o.buf + Concat(o.rest) == stream
            && stream[o.head.headLen..] == o.buf[o.head.headLen..] + TunnelBytes(o)
  {
    AcceptedKeepsBytes("", chunks);
    assert "" + Concat(chunks) == stream;
    var o := ReadFrom("", chunks);
    DropFront(o.buf, TunnelBytes(o), o.head.headLen);
  }

  /** A CONNECT tunnel delivers all client bytes behind its head exactly when some read ends where the head does;
      otherwise the rest of that read, and only that, is lost.  Any other request that is routed delivers all of
      them behind its rewritten head. */
  lemma TunnelLosesBufferedBytes(stream: string, chunks: seq<string>)
    requires Cuts(chunks, stream) && ReadFrom("", chunks).Accepted?
    ensures var o := ReadFrom("", chunks);
            && HeadEnd(stream) == Some(o.head.headLen) && o.head.headLen <= |o.buf| <= |stream|
            && stream[o.head.headLen..] == o.buf[o.head.headLen..] + TunnelBytes(o)
            && (IsConnect(o.head) ==>
                  (Upstream(o) == Some(stream[HeadEnd(stream).value..]) <==> BreaksAt(chunks, HeadEnd(stream).value)))
            && (!IsConnect(o.head) && RouteOf(o.head).Route? ==>
                  Upstream(o) == Some(Print(Rewritten(o.head)) + stream[o.head.headLen..]))
  {
    var o := ReadFrom("", chunks);
    BufferedThenRest(stream, chunks);
    assert "" + Concat(chunks) == stream;
    AcceptedAtHeadEnd("", chunks);
    BufferIsHeadExactly("", chunks);
    var n := o.head.headLen;
    if IsConnect(o.head) {
      NothingInFront(o.buf[n..], Concat(o.rest));
    } else if RouteOf(o.head).Route? {
      SentIsHeadThenRest(o, stream);
    }
  }

  /** Every CONNECT head that arrives in one read together with the first tunnel bytes loses all of them. */
  lemma PipelinedBytesLost(stream: string)
    requires 0 < |stream| <= READ_SIZE && ParseHead(stream).Complete? && ParseHead(stream).head.headLen < |stream|
    ensures Cuts([stream], stream) && ReadFrom("", [stream]) == Accepted(ParseHead(stream).head, stream, [])
    ensures stream[ParseHead(stream).head.headLen..] != ""
    ensures IsConnect(ParseHead(stream).head) ==> Upstream(ReadFrom("", [stream])) == Some("")
  {
    assert [stream][1..] == [];
    assert "" + stream == stream && stream + "" == stream;
    ParseGrowth("", stream);
  }

  predicate Printable(s: string) { forall i :: 0 <= i < |s| ==> '!' <= s[i] <= '~' }

  /** A head with an empty header list whose three words are printable is well formed. */
  lemma WordsAreWellFormed(h: Head)
    requires Printable(h.verb) && Printable(h.target) && Printable(h.version) && h.headers == []
    ensures WellFormed(h)
  {
    var line := RequestLine(h);
    assert forall i :: 0 <= i < |line| ==> ' ' <= line[i] <= '~';
    forall j ensures !At(line, CRLF, j) {
      if 0 <= j && j + 2 <= |line| { assert line[j..j + 2][0] == line[j]; }
    }
    AsciiIsUtf8(line);
  }

  function Connect(target: string): Head { Head("CONNECT", target, "HTTP/1.1", [], 0) }

  lemma ConnectPrinted(target: string)
    requires Printable(target)
    ensures WellFormed(Connect(target)) && |Print(Connect(target))| == |target| + 21 && IsConnect(Connect(target))
  {
    WordsAreWellFormed(Connect(target));
    assert Lower("CONNECT") == "connect";
  }

  /** A client that sends a CONNECT head for any target, and its first tunnel bytes, in one go: none of those
      bytes arrives. */
  lemma ConnectLossReached(target: string, early: string)
    requires Printable(target) && early != "" && |target| + |early| <= 4000
    ensures var stream := Print(Connect(target)) + early;
            && Cuts([stream], stream) && ReadFrom("", [stream]).Accepted?
            && var o := ReadFrom("", [stream]);
               && o.head.headLen <= |o.buf| == |stream| && stream[o.head.headLen..] == early
               && IsConnect(o.head) && Upstream(o) == Some("")
  {
    var stream := Print(Connect(target)) + early;
    ConnectPrinted(target);
    PrintThenParse(Connect(target), early);
    PipelinedBytesLost(stream);
    assert stream[|Print(Connect(target))|..] == early;
  }
}
