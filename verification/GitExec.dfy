/** The exec requests of the git SSH proxy: parsing, admission against the configured remote, and the command
    sent upstream. */
module GitExec {
  import opened Text
  import opened GitUrl

  datatype Exec = Exec(command: string, repo: string)

  datatype ExecError = InvalidUtf8 | Empty | NotAllowed(command: string) | MissingRepoPath(command: string)

  datatype ExecResult = Ok(exec: Exec) | Err(error: ExecError)

  predicate Allowed(command: string) { command == "git-upload-pack" || command == "git-receive-pack" }

  predicate Quote(c: char) { c == '\'' || c == '"' || c == ' ' }

  function StripFront(s: string): string { if s != "" && Quote(s[0]) then StripFront(s[1..]) else s }

  function StripBack(s: string): string { if s != "" && Quote(s[|s| - 1]) then StripBack(s[..|s| - 1]) else s }

  function RepoOf(raw: string): string { TrimSlashes(StripBack(StripFront(raw))) }

  /** Command and rest, cut at the first space. */
  function SplitCommand(data: string): (string, string) {
    match Find(data, " ")
    case Some(i) => (data[..i], data[i + 1..])
    case None => (data, "")
  }

  function ParseExec(data: string): ExecResult {
    if !Utf8(data) then Err(InvalidUtf8)
    else if data == "" then Err(Empty)
    else
      var (command, rest) := SplitCommand(data);
      if !Allowed(command) then Err(NotAllowed(command))
      else if Trim(rest) == "" || RepoOf(Trim(rest)) == "" then Err(MissingRepoPath(command))
      else Ok(Exec(command, RepoOf(Trim(rest))))
  }

  predicate RepoPathMatches(allowed: string, requested: string) { TrimSlashes(allowed) == TrimSlashes(requested) }

  predicate Admitted(remote: GitRemote, data: string) {
    ParseExec(data).Ok? && RepoPathMatches(remote.repoPath, ParseExec(data).exec.repo)
  }

  function UpstreamCommand(remote: GitRemote, exec: Exec): string { exec.command + " '" + remote.repoPath + "'" }

  // ------------------------------------------------------------------ stripping

  predicate NoFront(s: string) { s == "" || !Quote(s[0]) }

  predicate NoBack(s: string) { s == "" || !Quote(s[|s| - 1]) }

  lemma {:induction false} StripFrontCut(s: string) returns (i: nat)
    ensures i <= |s| && StripFront(s) == s[i..] && NoFront(s[i..])
  {
    if s != "" && Quote(s[0]) {
      var j := StripFrontCut(s[1..]);
      i := j + 1;
      assert s[1..][j..] == s[i..];
    } else {
      i := 0;
    }
  }

  lemma {:induction false} StripBackCut(s: string) returns (i: nat)
    ensures i <= |s| && StripBack(s) == s[..i] && NoBack(s[..i])
  {
    if s != "" && Quote(s[|s| - 1]) {
      i := StripBackCut(s[..|s| - 1]);
      assert s[..|s| - 1][..i] == s[..i];
    } else {
      i := |s|;
    }
  }

  lemma {:induction false} TrimSlashesCut(s: string) returns (i: nat)
    ensures i <= |s| && TrimSlashes(s) == s[i..] && (s[i..] == "" || s[i] != '/')
  {
    if s != "" && s[0] == '/' {
      var j := TrimSlashesCut(s[1..]);
      i := j + 1;
      assert s[1..][j..] == s[i..];
    } else {
      i := 0;
    }
  }

  /** A repository path never starts with a slash and never ends in a quote or a space. */
  lemma RepoIsClean(raw: string)
    ensures RepoOf(raw) == TrimSlashes(RepoOf(raw)) && NoBack(RepoOf(raw))
  {
    var front := StripFront(raw);
    var i := StripBackCut(front);
    var stripped := front[..i];
    var j := TrimSlashesCut(stripped);
    assert stripped[j..] != "" ==> stripped[j..][|stripped[j..]| - 1] == stripped[|stripped| - 1];
  }

  /** What is left of a path between quotes. */
  function Inside(inner: string): string { RepoOf("'" + inner + "'") }

  /** Quotes around a path that begins and ends in none come off, then the slashes. */
  lemma InsideIs(inner: string)
    requires inner != "" && NoFront(inner) && NoBack(inner)
    ensures Inside(inner) == TrimSlashes(inner)
  {
    var raw := "'" + inner + "'";
    assert raw[1..] == inner + "'";
    assert (inner + "'")[0] == inner[0];
    assert StripFront(raw) == StripFront(raw[1..]) == inner + "'";
    assert (inner + "'")[..|inner|] == inner;
    assert StripBack(inner + "'") == StripBack(inner) == inner;
  }

  lemma StripFrontEnd(s: string)
    ensures |StripFront(s)| <= |s|
    ensures StripFront(s) != "" ==> StripFront(s)[|StripFront(s)| - 1] == s[|s| - 1]
  {
    var i := StripFrontCut(s);
  }

  lemma QuotedBackIsShorter(s: string)
    requires s != "" && Quote(s[|s| - 1])
    ensures |TrimSlashes(StripBack(s))| < |s|
  {
    var i := StripBackCut(s[..|s| - 1]);
    var j := TrimSlashesCut(StripBack(s));
  }

  lemma QuoteInFrontIsLost(path: string)
    requires path != "" && Quote(path[0])
    ensures |Inside(path)| < |path|
  {
    var raw := "'" + path + "'";
    var tail := path[1..] + "'";
    assert raw[1..][1..] == tail && raw[1..][0] == path[0];
    assert StripFront(raw) == StripFront(raw[1..]) == StripFront(tail);
    StripFrontEnd(tail);
    if StripFront(tail) != "" {
      QuotedBackIsShorter(StripFront(tail));
    }
  }

  /** Neither a slash nor a quote or space in front, and no quote or space behind. */
  predicate Bare(path: string) { path != "" && path[0] != '/' && NoFront(path) && NoBack(path) }

  lemma InsideExactly(path: string)
    ensures Inside(path) == path != "" <==> Bare(path)
  {
    if Bare(path) {
      InsideIs(path);
    }
    if Inside(path) == path != "" {
      RepoIsClean("'" + path + "'");
      TrimSlashesEmpty(path);
      if Quote(path[0]) { QuoteInFrontIsLost(path); }
    }
  }

  lemma QuotedIsTrimmed(inner: string)
    ensures Trimmed("'" + inner + "'")
  {
    var s := "'" + inner + "'";
    assert s[0] == '\'' && s[|s| - 1] == '\'';
  }

  lemma AllowedShape(command: string)
    requires Allowed(command)
    ensures command != "" && forall i :: 0 <= i < |command| ==> '!' <= command[i] <= '~'
  {
  }

  lemma SplitIs(command: string, rest: string)
    requires ' ' !in command
    ensures SplitCommand(command + [' '] + rest) == (command, rest)
  {
    var data := command + [' '] + rest;
    CutIs(command, ' ', rest);
    assert data[..|command|] == command && data[|command| + 1..] == rest;
  }

  /** A request whose path is between quotes parses, if at all, to what is left inside them. */
  lemma QuotedRequest(command: string, inner: string)
    requires Allowed(command) && Utf8(inner)
    ensures var repo := Inside(inner);
            ParseExec(command + " '" + inner + "'")
            == if repo == "" then Err(MissingRepoPath(command)) else Ok(Exec(command, repo))
  {
    AllowedShape(command);
    var quoted := "'" + inner + "'";
    assert command + " '" + inner + "'" == command + [' '] + quoted;
    SplitIs(command, quoted);
    QuotedUtf8(command, inner);
    QuotedIsTrimmed(inner);
    TrimFixes(quoted);
  }

  lemma QuotedUtf8(command: string, inner: string)
    requires Allowed(command) && Utf8(inner)
    ensures Utf8(command + " '" + inner + "'")
  {
    AllowedShape(command);
    AsciiIsUtf8(command + " '");
    AsciiIsUtf8("'");
    Utf8Concat(command + " '", inner);
    Utf8Concat(command + " '" + inner, "'");
  }

  // ------------------------------------------------------------------ the laws

  /** The upstream command line parses back to the same command and path exactly for bare paths. */
  lemma CommandRoundTripExactly(command: string, path: string)
    requires Allowed(command) && Utf8(path)
    ensures ParseExec(command + " '" + path + "'") == Ok(Exec(command, path)) <==> Bare(path)
  {
    QuotedRequest(command, path);
    InsideExactly(path);
  }

  lemma ParsedRepo(data: string)
    requires ParseExec(data).Ok?
    ensures var r := ParseExec(data).exec.repo; r != "" && r[0] != '/' && TrimSlashes(r) == r && NoBack(r)
    ensures Allowed(ParseExec(data).exec.command)
  {
    var rest := SplitCommand(data).1;
    RepoIsClean(Trim(rest));
    TrimSlashesEmpty(RepoOf(Trim(rest)));
  }

  /** What an admitted request asks for is the configured repository itself; so the command sent upstream
      is the agent's request in normal form, exactly when the path does not begin with a quote or a space. */
  lemma AdmittedIsForwardedExactly(url: string, data: string)
    requires Parse(url).Some? && Utf8(Parse(url).value.repoPath) && Admitted(Parse(url).value, data)
    ensures var (remote, exec) := (Parse(url).value, ParseExec(data).exec);
            && exec.repo == remote.repoPath
            && (ParseExec(UpstreamCommand(remote, exec)) == Ok(exec) <==> NoFront(remote.repoPath))
  {
    var (remote, exec) := (Parse(url).value, ParseExec(data).exec);
    ParsedRepo(data);
    ParsedPathHasNoSlash(url);
    CommandRoundTripExactly(exec.command, remote.repoPath);
  }

  lemma ParsedPathHasNoSlash(url: string)
    requires Parse(url).Some?
    ensures TrimSlashes(Parse(url).value.repoPath) == Parse(url).value.repoPath
  {
    if "ssh://" <= url {
      TrimTwice(SplitPath(url[6..]).1);
    } else if "https://" <= url {
      TrimTwice(SplitPath(url[8..]).1);
    } else {
      var after := DropUser(url);
      TrimTwice(after[Find(after, ":").value + 1..]);
    }
  }

  lemma {:induction false} TrimTwice(s: string)
    ensures TrimSlashes(TrimSlashes(s)) == TrimSlashes(s)
  {
    if s != "" && s[0] == '/' { TrimTwice(s[1..]); }
  }

  lemma SlashedIsAdmitted(remote: GitRemote)
    requires Utf8(remote.repoPath) && TrimSlashes(remote.repoPath) == remote.repoPath
    requires remote.repoPath != "" && remote.repoPath[0] != '/' && NoBack(remote.repoPath)
    ensures Admitted(remote, "git-upload-pack" + " '" + ("/" + remote.repoPath) + "'")
  {
    var slashed := "/" + remote.repoPath;
    AsciiIsUtf8("/");
    Utf8Concat("/", remote.repoPath);
    InsideIs(slashed);
    assert slashed[1..] == remote.repoPath;
    QuotedRequest("git-upload-pack", slashed);
  }

  /** A configured remote can be reached by some request exactly when its path is not empty and does not end
      in a quote or a space; otherwise the proxy starts and refuses every request. */
  lemma ReachableExactly(remote: GitRemote)
    requires Utf8(remote.repoPath) && TrimSlashes(remote.repoPath) == remote.repoPath
    ensures (exists data :: Admitted(remote, data)) <==> remote.repoPath != "" && NoBack(remote.repoPath)
  {
    var path := remote.repoPath;
    if data :| Admitted(remote, data) {
      ParsedRepo(data);
    }
    if path != "" && NoBack(path) {
      TrimSlashesEmpty(path);
      SlashedIsAdmitted(remote);
    }
  }

  // ------------------------------------------------------------------ the grammar of a request

  predicate Quotes(s: string) { forall i :: 0 <= i < |s| ==> s[i] == '\'' || s[i] == '"' || s[i] == ' ' }

  predicate Slashes(s: string) { forall i :: 0 <= i < |s| ==> s[i] == '/' }

  lemma {:induction false} StripFrontOf(q: string, s: string)
    requires Quotes(q) && NoFront(s)
    ensures StripFront(q + s) == s
  {
    if q == "" {
      assert q + s == s;
    } else {
      assert (q + s)[1..] == q[1..] + s;
      StripFrontOf(q[1..], s);
    }
  }

  lemma {:induction false} StripBackOf(s: string, q: string)
    requires Quotes(q) && NoBack(s)
    ensures StripBack(s + q) == s
    decreases |q|
  {
    if q == "" {
      assert s + q == s;
    } else {
      assert (s + q)[..|s + q| - 1] == s + q[..|q| - 1];
      StripBackOf(s, q[..|q| - 1]);
    }
  }

  lemma {:induction false} TrimSlashesOf(q: string, s: string)
    requires Slashes(q) && (s == "" || s[0] != '/')
    ensures TrimSlashes(q + s) == s
  {
    if q == "" {
      assert q + s == s;
    } else {
      assert (q + s)[1..] == q[1..] + s;
      TrimSlashesOf(q[1..], s);
    }
  }

  lemma {:induction false} StripFrontLeaves(s: string) returns (q: string)
    ensures Quotes(q) && s == q + StripFront(s) && NoFront(StripFront(s))
  {
    if s != "" && Quote(s[0]) {
      var rest := StripFrontLeaves(s[1..]);
      q := [s[0]] + rest;
    } else {
      q := "";
    }
  }

  lemma {:induction false} StripBackLeaves(s: string) returns (q: string)
    ensures Quotes(q) && s == StripBack(s) + q && NoBack(StripBack(s))
  {
    if s != "" && Quote(s[|s| - 1]) {
      var rest := StripBackLeaves(s[..|s| - 1]);
      q := rest + [s[|s| - 1]];
    } else {
      q := "";
    }
  }

  lemma {:induction false} TrimSlashesLeaves(s: string) returns (q: string)
    ensures Slashes(q) && s == q + TrimSlashes(s) && (TrimSlashes(s) == "" || TrimSlashes(s)[0] != '/')
  {
    if s != "" && s[0] == '/' {
      var rest := TrimSlashesLeaves(s[1..]);
      q := [s[0]] + rest;
    } else {
      q := "";
    }
  }

  /** The path in quotes or spaces and behind slashes; without a slash it does not begin with a quote or space. */
  predicate Wraps(raw: string, repo: string, front: string, slashes: string, back: string) {
    && raw == front + (slashes + repo) + back
    && Quotes(front) && Slashes(slashes) && Quotes(back)
    && repo != "" && repo[0] != '/' && NoBack(repo) && (slashes == "" ==> NoFront(repo))
  }

  ghost predicate Wrapped(raw: string, repo: string) {
    exists front, slashes, back :: Wraps(raw, repo, front, slashes, back)
  }

  lemma WrapsIsRepo(raw: string, repo: string, front: string, slashes: string, back: string)
    requires Wraps(raw, repo, front, slashes, back)
    ensures RepoOf(raw) == repo
  {
    var inner := slashes + repo;
    assert inner[|inner| - 1] == repo[|repo| - 1];
    assert slashes != "" ==> inner[0] == slashes[0];
    assert raw == front + (inner + back);
    assert (inner + back)[0] == inner[0];
    StripFrontOf(front, inner + back);
    StripBackOf(inner, back);
    TrimSlashesOf(slashes, repo);
  }

  lemma LastOfTail(a: string, b: string)
    requires b != ""
    ensures (a + b)[|a + b| - 1] == b[|b| - 1]
  {
  }

  lemma FirstOfHead(a: string, b: string)
    requires a != ""
    ensures a + b != "" && (a + b)[0] == a[0]
  {
  }

  /** What stripping has taken off, piece by piece, wraps what it has left. */
  lemma WrapsUp(front: string, slashes: string, repo: string, back: string)
    requires Quotes(front) && Slashes(slashes) && Quotes(back) && repo != "" && repo[0] != '/'
    requires NoFront(slashes + repo + back) && NoBack(slashes + repo)
    ensures Wraps(front + (slashes + repo + back), repo, front, slashes, back)
  {
    LastOfTail(slashes, repo);
    Assoc(front, slashes + repo, back);
    if slashes == "" {
      assert slashes + repo == repo;
      FirstOfHead(repo, back);
    }
  }

  lemma RepoIsWrapped(raw: string)
    requires RepoOf(raw) != ""
    ensures Wrapped(raw, RepoOf(raw))
  {
    var front := StripFrontLeaves(raw);
    var back := StripBackLeaves(StripFront(raw));
    var slashes := TrimSlashesLeaves(StripBack(StripFront(raw)));
    WrapsUp(front, slashes, RepoOf(raw), back);
  }

  /** Command, space, and the path wrapped in whitespace, quotes and slashes. */
  ghost predicate Requests(data: string, exec: Exec, rest: string, raw: string) {
    && data == exec.command + " " + rest && (exec.command == "git-upload-pack" || exec.command == "git-receive-pack")
    && Trimmed(raw) && Padded(rest, raw) && Wrapped(raw, exec.repo)
  }

  lemma RequestsParses(data: string, exec: Exec, rest: string, raw: string)
    requires Utf8(data) && Requests(data, exec, rest, raw)
    ensures ParseExec(data) == Ok(exec)
  {
    AllowedShape(exec.command);
    assert data == exec.command + [' '] + rest;
    SplitIs(exec.command, rest);
    TrimExactly(rest, raw);
    WrappedRepo(raw, exec.repo);
  }

  lemma WrappedRepo(raw: string, repo: string)
    requires Wrapped(raw, repo)
    ensures RepoOf(raw) == repo && repo != "" && raw != ""
  {
    var front, slashes, back :| Wraps(raw, repo, front, slashes, back);
    WrapsIsRepo(raw, repo, front, slashes, back);
  }

  lemma SpaceCuts(data: string)
    requires SplitCommand(data).1 != ""
    ensures data == SplitCommand(data).0 + " " + SplitCommand(data).1
  {
    CutAt(data, ' ', Find(data, " ").value);
  }

  lemma ParsedRequests(data: string)
    requires ParseExec(data).Ok?
    ensures var rest := SplitCommand(data).1; Requests(data, ParseExec(data).exec, rest, Trim(rest))
  {
    var rest := SplitCommand(data).1;
    SpaceCuts(data);
    TrimExactly(rest, Trim(rest));
    RepoIsWrapped(Trim(rest));
  }

  /** Which requests are accepted, quoted or not, and what they ask for. */
  lemma ExecExactly(data: string, exec: Exec)
    ensures ParseExec(data) == Ok(exec) <==> Utf8(data) && exists rest, raw :: Requests(data, exec, rest, raw)
  {
    if ParseExec(data) == Ok(exec) { ParsedRequests(data); }
    if rest, raw :| Utf8(data) && Requests(data, exec, rest, raw) { RequestsParses(data, exec, rest, raw); }
  }

  /** And why the others are refused: for their encoding, for being empty, for any other command, which is what
      stands before the first space, or for having no path. */
  lemma ExecRefusedExactly(data: string, command: string, rest: string)
    requires ' ' !in command && (data == command + " " + rest || (data == command && rest == ""))
    ensures ParseExec(data) == Err(InvalidUtf8) <==> !Utf8(data)
    ensures ParseExec(data) == Err(Empty) <==> data == ""
    ensures Utf8(data) && data != "" ==>
              && (ParseExec(data) == Err(NotAllowed(command)) <==>
                    command != "git-upload-pack" && command != "git-receive-pack")
              && (ParseExec(data) == Err(MissingRepoPath(command)) <==>
                    && (command == "git-upload-pack" || command == "git-receive-pack")
                    && forall repo :: repo != "" ==> !Wrapped(Trim(rest), repo))
  {
    if data == command {
      NoCut(command, ' ');
    } else {
      assert data == command + [' '] + rest;
      SplitIs(command, rest);
    }
    var raw := Trim(rest);
    if RepoOf(raw) != "" { RepoIsWrapped(raw); }
    forall repo | repo != "" && Wrapped(raw, repo) ensures RepoOf(raw) == repo && raw != "" { WrappedRepo(raw, repo); }
  }
}
