/** `GIT_REPO_URL`: its three forms, what they denote, and printing a remote back. */
module GitUrl {
  import opened Text
  import opened Decimal

  datatype GitRemote = GitRemote(host: string, port: nat, repoPath: string)

  function TrimSlashes(s: string): string { if s != "" && s[0] == '/' then TrimSlashes(s[1..]) else s }

  predicate Forbidden(c: char) { c == '\t' || c == '\n' || c == '\r' || c == '\0' || c == '%' }

  predicate Clean(url: string) { forall i :: 0 <= i < |url| ==> !Forbidden(url[i]) }

  // ------------------------------------------------------------------ the parser

  function SplitPath(rest: string): (string, string) {
    match Find(rest, "/")
    case Some(i) => (rest[..i], rest[i..])
    case None => (rest, "")
  }

  function DropUser(authority: string): string {
    match Find(authority, "@")
    case Some(i) => authority[i + 1..]
    case None => authority
  }

  function SplitPort(hostPort: string, defaultPort: nat): Option<(string, nat)> {
    match LastIndex(hostPort, ':')
    case None => Some((hostPort, defaultPort))
    case Some(i) =>
      match ParseU16(hostPort[i + 1..])
      case None => None
      case Some(port) => Some((hostPort[..i], port))
  }

  function ParseScheme(rest: string, defaultPort: nat): Option<GitRemote> {
    var (authority, path) := SplitPath(rest);
    var hostPort := DropUser(authority);
    if hostPort == "" || hostPort[0] == '[' then None
    else
      match SplitPort(hostPort, defaultPort)
      case None => None
      case Some((host, port)) =>
        if host == "" || TrimSlashes(path) == "" then None else Some(GitRemote(host, port, TrimSlashes(path)))
  }

  function ParseScp(afterAt: string): Option<GitRemote> {
    match Find(afterAt, ":")
    case None => None
    case Some(i) =>
      if i == 0 || afterAt[i + 1..] == "" then None
      else Some(GitRemote(afterAt[..i], 22, TrimSlashes(afterAt[i + 1..])))
  }

  function Parse(url: string): Option<GitRemote> {
    if !Clean(url) then None
    else if "ssh://" <= url then ParseScheme(url[6..], 22)
    else if "https://" <= url then ParseScheme(url[8..], 22)
    else if Find(url, "@").Some? && Find(url, "://").None? then ParseScp(DropUser(url))
    else None
  }

  // ------------------------------------------------------------------ what it accepts

  /** `[user@]host[:port]/path`. */
  datatype Parts = Parts(user: Option<string>, host: string, port: Option<string>, path: string)

  predicate WellFormed(p: Parts) {
    && (p.user.Some? ==> '@' !in p.user.value && '/' !in p.user.value)
    && (p.user.None? ==> '@' !in p.host)
    && p.host != "" && p.host[0] != '[' && '/' !in p.host
    && (p.port.Some? ==> ParseU16(p.port.value).Some?)
    && (p.port.None? ==> ':' !in p.host)
    && p.path != "" && p.path[0] == '/' && TrimSlashes(p.path) != ""
  }

  function HostPort(p: Parts): string { p.host + if p.port.Some? then ":" + p.port.value else "" }

  function Authority(p: Parts): string { (if p.user.Some? then p.user.value + "@" else "") + HostPort(p) }

  function Render(p: Parts): string { Authority(p) + p.path }

  /** The user never matters; a missing port is the default. */
  function Denoted(p: Parts, defaultPort: nat): GitRemote
    requires WellFormed(p)
  {
    GitRemote(p.host, if p.port.Some? then ParseU16(p.port.value).value else defaultPort, TrimSlashes(p.path))
  }

  /** The first `c` in `a + [c] + b` is at the end of `a` when `a` has none. */
  lemma CutIs(a: string, c: char, b: string)
    requires c !in a
    ensures Find(a + [c] + b, [c]) == Some(|a|)
  {
    var s := a + [c] + b;
    forall j | 0 <= j < |a| ensures s[j] != c { assert s[j] == a[j]; }
    FindChar(s, c, |a|);
  }

  lemma {:induction false} NoCut(s: string, c: char)
    ensures Find(s, [c]).None? <==> c !in s
  {
    if s != "" {
      NoCut(s[1..], c);
      assert s[..1] == [s[0]];
      assert s == [s[0]] + s[1..];
    }
  }

  lemma SplitPathPrinted(p: Parts)
    requires WellFormed(p)
    ensures SplitPath(Render(p)) == (Authority(p), p.path)
  {
    if p.port.Some? { PortChars(p.port.value, '/'); }
    assert '/' !in Authority(p);
    assert p.path == ['/'] + p.path[1..];
    assert Render(p) == Authority(p) + ['/'] + p.path[1..];
    CutIs(Authority(p), '/', p.path[1..]);
  }

  lemma DropUserPrinted(p: Parts)
    requires WellFormed(p)
    ensures DropUser(Authority(p)) == HostPort(p)
  {
    if p.user.Some? {
      assert Authority(p) == p.user.value + ['@'] + HostPort(p);
      CutIs(p.user.value, '@', HostPort(p));
    } else {
      if p.port.Some? { PortChars(p.port.value, '@'); }
      assert Authority(p) == HostPort(p);
      NoCut(HostPort(p), '@');
    }
  }

  lemma SplitPortPrinted(p: Parts, defaultPort: nat)
    requires WellFormed(p)
    ensures SplitPort(HostPort(p), defaultPort) == Some((p.host, Denoted(p, defaultPort).port))
  {
    if p.port.Some? {
      PortChars(p.port.value, ':');
      assert HostPort(p) == p.host + [':'] + p.port.value;
      LastIndexIs(p.host, ':', p.port.value);
    } else {
      assert HostPort(p) == p.host;
    }
  }

  /** Every well-formed text parses to what it denotes. */
  lemma PrintedParses(p: Parts, defaultPort: nat)
    requires WellFormed(p)
    ensures ParseScheme(Render(p), defaultPort) == Some(Denoted(p, defaultPort))
  {
    SplitPathPrinted(p);
    DropUserPrinted(p);
    SplitPortPrinted(p, defaultPort);
    assert HostPort(p)[0] == p.host[0];
  }

  lemma UserPart(authority: string) returns (user: Option<string>)
    ensures authority == (if user.Some? then user.value + "@" else "") + DropUser(authority)
    ensures user.Some? ==> '@' !in user.value && forall c :: c in user.value ==> c in authority
    ensures user.None? ==> '@' !in authority
  {
    NoCut(authority, '@');
    match Find(authority, "@")
    case None => user := None;
    case Some(i) =>
      CutAt(authority, '@', i);
      user := Some(authority[..i]);
      assert authority == authority[..i] + "@" + authority[i + 1..];
  }

  lemma PortPart(hostPort: string, defaultPort: nat) returns (port: Option<string>)
    requires SplitPort(hostPort, defaultPort).Some?
    ensures var (host, number) := SplitPort(hostPort, defaultPort).value;
            && hostPort == host + (if port.Some? then ":" + port.value else "")
            && (port.Some? ==> ParseU16(port.value) == Some(number))
            && (port.None? ==> ':' !in host && number == defaultPort)
  {
    match LastIndex(hostPort, ':')
    case None =>
      port := None;
      assert hostPort == hostPort + "";
    case Some(i) =>
      port := Some(hostPort[i + 1..]);
      CutAround(hostPort, i);
      assert hostPort == hostPort[..i] + (":" + hostPort[i + 1..]);
  }

  lemma PathPart(rest: string)
    ensures var (authority, path) := SplitPath(rest);
            rest == authority + path && '/' !in authority && (path != "" ==> path[0] == '/')
  {
    NoCut(rest, '/');
    match Find(rest, "/")
    case None =>
    case Some(i) =>
      CutAt(rest, '/', i);
      assert rest == rest[..i] + rest[i..];
  }

  lemma ParsedParts(rest: string, defaultPort: nat) returns (p: Parts)
    requires ParseScheme(rest, defaultPort).Some?
    ensures WellFormed(p) && Render(p) == rest && Some(Denoted(p, defaultPort)) == ParseScheme(rest, defaultPort)
  {
    var (authority, path) := SplitPath(rest);
    PathPart(rest);
    var hostPort := DropUser(authority);
    var user := UserPart(authority);
    var port := PortPart(hostPort, defaultPort);
    var host := SplitPort(hostPort, defaultPort).value.0;
    p := Parts(user, host, port, path);
    assert HostPort(p) == hostPort;
    assert Authority(p) == authority;
    assert host[0] == hostPort[0];
    assert forall c :: c in host ==> c in hostPort;
    assert forall c :: c in hostPort ==> c in authority;
  }

  ghost predicate SchemeDenotes(rest: string, defaultPort: nat, r: GitRemote) {
    exists p :: WellFormed(p) && Render(p) == rest && Denoted(p, defaultPort) == r
  }

  /** The parser accepts exactly the well-formed texts and gives exactly what they denote. */
  lemma SchemeExactly(rest: string, defaultPort: nat, r: GitRemote)
    ensures ParseScheme(rest, defaultPort) == Some(r) <==> SchemeDenotes(rest, defaultPort, r)
  {
    if ParseScheme(rest, defaultPort) == Some(r) {
      var p := ParsedParts(rest, defaultPort);
    }
    if SchemeDenotes(rest, defaultPort, r) {
      var p :| WellFormed(p) && Render(p) == rest && Denoted(p, defaultPort) == r;
      PrintedParses(p, defaultPort);
    }
  }

  // ------------------------------------------------------------------ whole URLs

  /** `user@host:path`. */
  datatype ScpParts = ScpParts(user: string, host: string, path: string)

  predicate ScpWellFormed(p: ScpParts) { '@' !in p.user && p.host != "" && ':' !in p.host && p.path != "" }

  function ScpRender(p: ScpParts): string { p.user + "@" + p.host + ":" + p.path }

  ghost predicate ScpDenotes(url: string, r: GitRemote) {
    exists p :: ScpWellFormed(p) && ScpRender(p) == url && r == GitRemote(p.host, 22, TrimSlashes(p.path))
  }

  /** What a URL denotes, by its form alone; no scheme separator may occur in an scp-style one. */
  ghost predicate Denotes(url: string, r: GitRemote) {
    || ("ssh://" <= url && SchemeDenotes(url[6..], 22, r))
    || ("https://" <= url && SchemeDenotes(url[8..], 22, r))
    || (Find(url, "://").None? && ScpDenotes(url, r))
  }

  lemma ScpPrintedParses(p: ScpParts)
    requires ScpWellFormed(p)
    ensures Find(ScpRender(p), "@").Some?
    ensures ParseScp(DropUser(ScpRender(p))) == Some(GitRemote(p.host, 22, TrimSlashes(p.path)))
  {
    var after := p.host + [':'] + p.path;
    assert ScpRender(p) == p.user + ['@'] + after;
    CutIs(p.user, '@', after);
    assert DropUser(ScpRender(p)) == after;
    CutIs(p.host, ':', p.path);
    assert after[..|p.host|] == p.host && after[|p.host| + 1..] == p.path;
  }

  lemma ScpParsedAfter(after: string)
    requires ParseScp(after).Some?
    ensures var i := |ParseScp(after).value.host|;
            && i + 1 < |after| && after == after[..i] + ":" + after[i + 1..] && ':' !in after[..i] && i > 0
            && ParseScp(after) == Some(GitRemote(after[..i], 22, TrimSlashes(after[i + 1..])))
  {
    CutAt(after, ':', Find(after, ":").value);
  }

  lemma ScpParsedParts(url: string) returns (p: ScpParts)
    requires Find(url, "@").Some? && ParseScp(DropUser(url)).Some?
    ensures ScpWellFormed(p) && ScpRender(p) == url
    ensures ParseScp(DropUser(url)) == Some(GitRemote(p.host, 22, TrimSlashes(p.path)))
  {
    var at := Find(url, "@").value;
    CutAt(url, '@', at);
    var after := url[at + 1..];
    assert DropUser(url) == after;
    ScpParsedAfter(after);
    var i := |ParseScp(after).value.host|;
    p := ScpParts(url[..at], after[..i], after[i + 1..]);
    ScpAssoc(p, after);
  }

  lemma ScpAssoc(p: ScpParts, after: string)
    requires after == p.host + ":" + p.path
    ensures ScpRender(p) == p.user + "@" + after
  {
  }

  lemma SchemeHasSeparator(url: string)
    requires "ssh://" <= url || "https://" <= url
    ensures Find(url, "://").Some?
  {
    FindSpec(url, "://");
    var k := if "ssh://" <= url then 3 else 5;
    assert url[k] == ':' && url[k + 1] == '/' && url[k + 2] == '/';
    assert At(url, "://", k);
  }

  lemma ScpExactly(url: string, r: GitRemote)
    ensures Find(url, "@").Some? && ParseScp(DropUser(url)) == Some(r) <==> ScpDenotes(url, r)
  {
    if Find(url, "@").Some? && ParseScp(DropUser(url)) == Some(r) {
      var p := ScpParsedParts(url);
    }
    if ScpDenotes(url, r) {
      var p :| ScpWellFormed(p) && ScpRender(p) == url && r == GitRemote(p.host, 22, TrimSlashes(p.path));
      ScpPrintedParses(p);
    }
  }

  lemma OneScheme(url: string)
    ensures !("ssh://" <= url && "https://" <= url)
  {
    if "ssh://" <= url { assert url[0] == "ssh://"[0]; }
  }

  /** `parse` accepts exactly the clean texts of the three forms and gives exactly what they denote. */
  lemma ParseExactly(url: string, r: GitRemote)
    ensures Parse(url) == Some(r) <==> Clean(url) && Denotes(url, r)
  {
    OneScheme(url);
    if "ssh://" <= url {
      SchemeHasSeparator(url);
      SchemeExactly(url[6..], 22, r);
    } else if "https://" <= url {
      SchemeHasSeparator(url);
      SchemeExactly(url[8..], 22, r);
    } else {
      ScpExactly(url, r);
    }
  }

  // ------------------------------------------------------------------ printing a remote

  function Print(r: GitRemote): string { "ssh://" + r.host + ":" + PrintNat(r.port) + "/" + r.repoPath }

  /** What a remote must be to survive its own printing. */
  predicate Printable(r: GitRemote) {
    && r.host != "" && r.host[0] != '[' && '/' !in r.host && '@' !in r.host && Clean(r.host)
    && r.port <= MAX_U16
    && r.repoPath != "" && r.repoPath[0] != '/' && Clean(r.repoPath)
  }

  lemma CleanConcat(a: string, b: string)
    ensures Clean(a + b) <==> Clean(a) && Clean(b)
  {
    if Clean(a + b) {
      forall i | 0 <= i < |a| ensures !Forbidden(a[i]) { assert (a + b)[i] == a[i]; }
      forall i | 0 <= i < |b| ensures !Forbidden(b[i]) { assert (a + b)[|a| + i] == b[i]; }
    }
  }

  lemma CleanPrint(r: GitRemote)
    ensures Clean(Print(r)) <==> Clean(r.host) && Clean(r.repoPath)
  {
    var digits := PrintNat(r.port);
    assert forall i :: 0 <= i < |digits| ==> Digit(digits[i]);
    assert Clean("ssh://") && Clean(":") && Clean("/") && Clean(digits);
    CleanConcat("ssh://", r.host);
    CleanConcat("ssh://" + r.host, ":");
    CleanConcat("ssh://" + r.host + ":", digits);
    CleanConcat("ssh://" + r.host + ":" + digits, "/");
    CleanConcat("ssh://" + r.host + ":" + digits + "/", r.repoPath);
  }

  /** The parts of a printed remote, with any user put before the host. */
  function Printed(r: GitRemote, user: Option<string>): Parts {
    Parts(user, r.host, Some(PrintNat(r.port)), "/" + r.repoPath)
  }

  lemma PrintedParts(r: GitRemote, user: Option<string>)
    requires Printable(r) && (user.Some? ==> '@' !in user.value && '/' !in user.value)
    ensures WellFormed(Printed(r, user)) && Denoted(Printed(r, user), 22) == r
  {
    PortRoundTrip(r.port);
    var path := "/" + r.repoPath;
    assert path[1..] == r.repoPath;
    assert TrimSlashes(path) == r.repoPath;
  }

  lemma PrintIsRender(r: GitRemote, user: Option<string>)
    ensures "ssh://" + Render(Printed(r, user))
         == "ssh://" + (if user.Some? then user.value + "@" else "") + Print(r)[6..]
    ensures user.None? ==> "ssh://" + Render(Printed(r, user)) == Print(r)
  {
  }

  lemma SchemeParses(url: string, p: Parts)
    requires WellFormed(p) && url == "ssh://" + Render(p) && Clean(url)
    ensures Parse(url) == Some(Denoted(p, 22))
  {
    PrintedParses(p, 22);
    assert url[6..] == Render(p);
  }

  /** Userinfo does not change the result. */
  lemma UserIgnored(r: GitRemote, user: string)
    requires Printable(r) && '@' !in user && '/' !in user && Clean(user)
    ensures Parse("ssh://" + (user + "@") + Print(r)[6..]) == Some(r)
  {
    PrintedParts(r, Some(user));
    PrintIsRender(r, Some(user));
    var url := "ssh://" + (user + "@") + Print(r)[6..];
    CleanPrint(r);
    assert Print(r) == "ssh://" + Print(r)[6..];
    CleanConcat("ssh://", Print(r)[6..]);
    CleanConcat(user, "@");
    CleanConcat("ssh://", user + "@");
    CleanConcat("ssh://" + (user + "@"), Print(r)[6..]);
    SchemeParses(url, Printed(r, Some(user)));
  }

  lemma UserIsCut(h: string, tail: string) returns (i: nat)
    requires '@' in h
    ensures i < |h| && DropUser(h + tail) == h[i + 1..] + tail
  {
    NoCut(h, '@');
    i := Find(h, "@").value;
    CutAt(h, '@', i);
    assert h + tail == h[..i] + ['@'] + (h[i + 1..] + tail);
    CutIs(h[..i], '@', h[i + 1..] + tail);
  }

  lemma PortIsCut(host: string, digits: string)
    requires ':' !in digits
    ensures var split := SplitPort(host + (":" + digits), 22); split.None? || split.value.0 == host
  {
    assert host + (":" + digits) == host + [':'] + digits;
    LastIndexIs(host, ':', digits);
  }

  lemma UserCutFromHost(h: string, digits: string)
    requires '@' in h && ':' !in digits
    ensures var split := SplitPort(DropUser(h + (":" + digits)), 22); split.None? || |split.value.0| < |h|
  {
    var i := UserIsCut(h, ":" + digits);
    PortIsCut(h[i + 1..], digits);
  }

  /** With an `@` in it the host is cut short. */
  lemma UserInHostIsLost(r: GitRemote)
    requires '@' in r.host && '/' !in r.host
    ensures ParseScheme(Print(r)[6..], 22) != Some(r)
  {
    var digits := PrintNat(r.port);
    assert '/' !in digits && ':' !in digits;
    var authority := r.host + (":" + digits);
    assert Print(r)[6..] == authority + ['/'] + r.repoPath;
    CutIs(authority, '/', r.repoPath);
    assert SplitPath(Print(r)[6..]).0 == authority;
    UserCutFromHost(r.host, digits);
  }

  /** Printing a remote with its port and parsing the text gives the remote back exactly when it is
      printable; that holds for every port number. */
  lemma PrintThenParseExactly(r: GitRemote)
    ensures Parse(Print(r)) == Some(r) <==> Printable(r)
  {
    if Printable(r) {
      PrintedParts(r, None);
      PrintIsRender(r, None);
      CleanPrint(r);
      SchemeParses(Print(r), Printed(r, None));
    }
    if Parse(Print(r)) == Some(r) {
      var p := ParsedParts(Print(r)[6..], 22);
      CleanPrint(r);
      TrimSlashesEmpty(p.path);
      if '@' in r.host { UserInHostIsLost(r); }
    }
  }

  /** A path of slashes only: the scp form yields an empty repository path, which the other two refuse. */
  lemma ScpEmptyPathExactly(p: ScpParts)
    requires ScpWellFormed(p) && Clean(ScpRender(p)) && Find(ScpRender(p), "://").None?
    ensures Parse(ScpRender(p)) == Some(GitRemote(p.host, 22, TrimSlashes(p.path)))
    ensures TrimSlashes(p.path) == "" <==> forall i :: 0 <= i < |p.path| ==> p.path[i] == '/'
  {
    ParseExactly(ScpRender(p), GitRemote(p.host, 22, TrimSlashes(p.path)));
    TrimSlashesEmpty(p.path);
  }

  lemma {:induction false} TrimSlashesEmpty(s: string)
    ensures TrimSlashes(s) == "" <==> forall i :: 0 <= i < |s| ==> s[i] == '/'
    ensures TrimSlashes(s) != "" ==> TrimSlashes(s)[0] != '/'
  {
    if s != "" && s[0] == '/' {
      TrimSlashesEmpty(s[1..]);
      assert forall i :: 0 < i < |s| ==> s[i] == s[1..][i - 1];
    }
  }

  lemma NoSeparator(url: string)
    requires forall i :: 0 <= i < |url| - 1 ==> url[i] != '/'
    ensures Find(url, "://").None?
  {
    forall j ensures !At(url, "://", j) {
      if 0 <= j && j + 3 <= |url| { assert url[j..j + 3][1] == url[j + 1]; }
    }
    FindNone(url, "://");
  }

  lemma EmptyPathReached()
    ensures Parse("git@h:/") == Some(GitRemote("h", 22, ""))
  {
    var p := ScpParts("git", "h", "/");
    assert ScpRender(p) == "git@h:/";
    NoSeparator(ScpRender(p));
    ScpEmptyPathExactly(p);
    TrimSlashesEmpty("/");
  }
}
