# Verification of the Nautiloop core

A Dafny model of the parts of Nautiloop whose behaviour spans many steps or many functions, with proofs of
what those parts promise. `dafny verify dfyconfig.toml` checks all of it.

| files | what they model |
|---|---|
| `Text.dfy`, `Unicode.dfy`, `Decimal.dfy` | Rust's `str` as bytes: searching, UTF-8 (section 3 of RFC 3629), Unicode trimming, ASCII lowering; decimal ports |
| `ExecPump.dfy`, `ExecPumpRuns.dfy`, `ExecPumpReplies.dfy`, `ExecPumpAgent.dfy`, `ExecPumpTask.dfy` | the exec pump of the sidecar's git SSH proxy: a step relation over handler callbacks, queues, pump and upstream log (sections 5.2, 5.3 and 6.5 of RFC 4254), what every run keeps, what the agent sends and gets back, and the callbacks and select branches in imperative form |
| `EgressHead.dfy`, `EgressGrammar.dfy`, `EgressReader.dfy`, `EgressForward.dfy` | the egress proxy's request head parser and printer, the heads it accepts, its read loop, and what it forwards (sections 2.1, 3 and 5 of RFC 9112) |
| `OauthRefresh.dfy`, `OauthGrants.dfy`, `OauthInterleaving.dfy` | the model proxy's OAuth refresh cache: sequential runs under any clock, what a grant becomes, and overlapping refreshes |
| `LogStream.dfy`, `EventSplitter.dfy`, `LogDelivery.dfy` | log streaming: the server's polling cursor, the client's event splitter (section 9.2 of the WHATWG HTML standard), and both together |
| `Divergence.dfy` | the two divergence classifications over a commit graph, and runs of commits and pushes |
| `GitRepo.dfy`, `Worktrees.dfy`, `BranchReuse.dfy` | the bare repository with its worktrees and indexes, what sequences of operations keep, and what becomes of a branch that exists |
| `StartSaga.dfy`, `StartOutcomes.dfy`, `RecordedSha.dfy`, `StartCompensation.dfy`, `StartRuns.dfy`, `StartHandler.dfy`, `EngineerIdentity.dfy` | `/start` as a saga with compensations, interleaved with other starts and with writers that read a row and write it back later |
| `DrainTracker.dfy` | the shutdown drain counter, its guards and its waiters |
| `Profiles.dfy` | the CLI's profile store and name resolution |
| `GitUrl.dfy`, `GitExec.dfy` | `GIT_REPO_URL` and exec requests: parsing, printing, admission |

Text is a `string` in which every `char` stands for one byte. Where the source updates an object in place the
model is a class whose methods are proved equal to a step of a specification function; where it is concurrent
the model is a step relation, and the theorems range over all runs. Answers of sockets, clocks, git, `gh`, the
database and the file system are inputs of a step, so each theorem holds for all of them.

Where the code and its own comments differ, the model follows the code:

- A request head is promised a bound of 32 KiB, but the size is tested only between reads: whether a head that
  ends between bytes 32770 and 36864 is refused depends on how the network cut it
  (`EgressReader.ChunkingIrrelevantExactly`).
- A CONNECT request drops the bytes that were read together with its head (`EgressForward.TunnelLosesBufferedBytes`,
  `EgressForward.ConnectLossReached`).
- The close callback is said never to block behind data. It needs no queue space, but callbacks run one at a
  time, so it waits while a data callback is suspended on a full queue (`ExecPumpRuns.CloseEnabledExactly`). After a
  failed write that wait lasts until the upstream ends (`ExecPumpRuns.BlockedUntilUpstreamEnds`,
  `ExecPumpRuns.BlockedReached`). The comment of the callback says that the map entry is removed after the message
  is sent; the code removes it before.
- A second exec request on a channel displaces the senders of the first, whose pump then closes the channel
  (`ExecPumpRuns.ControlGoneExactly`, `ExecPumpRuns.ControlGoneReached`).
- After a failed upstream write the EOF drain still writes later chunks (`ExecPumpRuns.GapOpensExactly`).
- The degraded flag is written at the fifth failure only, so one failed write leaves the streak without it
  (`OauthRefresh.FlagExactAlong`, `OauthRefresh.MissedFlagReached`); a grant that does not outrank the file makes the consumed token go out again
  (`OauthRefresh.LatestTokenExactly`, `OauthRefresh.ConsumedTokenReplayed`).
- The log stream never shows a row inserted with a timestamp older than one already queried
  (`LogStream.CompleteExactly`, `LogStream.LateRowReached`).
- `ForceDeviated` is described as the result of a force push or rebase; two ordinary pushes reach it
  (`Divergence.ForkWithoutForcePush`).
- Branches whose names differ only in `/` and `-` share a worktree directory (`Worktrees.WriteReachesBranchExactly`);
  a spawn failure leaks a temporary worktree (`Worktrees.TempSurvivesExactly`, `Worktrees.LeakReached`); what a failed commit leaves staged
  is committed by the next write (`Worktrees.FailedWriteLandsLater`).
- `create_branch` reports the base commit even when it reuses a branch, so `/start` may record a SHA that is not
  the tip (`StartOutcomes.DefaultShaExactly`, `StartRuns.WrongShaReached`), and its compensation then deletes a
  branch it did not create (`StartCompensation.ReusedBranchLostExactly`, `StartRuns.ReusedBranchLostReached`).
- The compensation is there so that a retry gets through, but a branch that is gone locally and left on the remote
  refuses the push of an uploaded spec, since `create_branch` cleans up the remote only behind a local branch
  (`StartCompensation.CreatedExactly`, `StartCompensation.RetryIsCreatedExactly`). A refused remote delete leaves
  such a branch (`StartRuns.StrandedUploadReached`), and so does a failed start from the default branch that had
  reused one (`StartRuns.StrandedDefaultReached`).
- A tick of the reconciler, or a handler that rewrites a whole row, may have read the row before `/start` records
  the SHA and write it back after: the row then has no SHA although Created is answered
  (`RecordedSha.CreatedAgreesExactly`, `StartRuns.StaleTickNullsSha`).
- Retiring a row while its request is being served breaks the ownership the saga relies on
  (`StartSaga.SaneExactlyAlong`, `StartRuns.CancelledStartDeletesSuccessor`).
- `wait_for_drain` is documented to return true if drained; it can return false on a drained tracker
  when a registration comes too late or the timer fires between the last decrement and its notification (`DrainTracker.FalseAtZeroExactly`,
  `DrainTracker.LostWakeupReached`, `DrainTracker.EarlyTimerReached`).
- `git@host:/` is accepted although a missing path is an error in the other two forms (`GitUrl.ScpEmptyPathExactly`);
  the proxy then refuses every request (`GitExec.ReachableExactly`).

## Model

| member | source | states |
|---|---|---|
| `EgressHead.ParseRequestHead` | sidecar/src/egress.rs:97-133 | the early-return parser computes the specification parser on every buffer: first blank line, size test only while it is missing, UTF-8 test, request line cut at two spaces, headers cut at the first colon |
| `EgressHead.ParseHeaderLines` | sidecar/src/egress.rs:115-124 | the header loop collects, in order, the trimmed lower-cased headers of all non-empty lines and stops at the first line without a colon |
| `EgressHead.SerializeRequest` | sidecar/src/egress.rs:202-219 | the printing loop emits the wire form of the head with the target overridden |
| `EgressHead.ParsedIsWellFormed` | sidecar/src/egress.rs:97-133 | whatever bytes come in, every head the parser returns is well formed: no part can be taken for a delimiter, names lower case and trimmed, and the head ends just after the first blank line |
| `EgressHead.PrintThenParse` | sidecar/src/egress.rs:202-219 | printing a well-formed head in front of any bytes and parsing gives back method, target, version and ordered headers, and the body begins where the printed head ends |
| `EgressHead.ParsePrintParse` | sidecar/src/egress.rs:97-219 | for every buffer that parses, parse, print, parse changes nothing but the recorded length: the printed form is a normal form |
| `EgressHead.RoundTripsExactlyWhenWellFormed` | sidecar/src/egress.rs:97-219 | printing loses nothing if and only if the head is well formed |
| `EgressGrammar.HeaderExactly` | sidecar/src/egress.rs:119-122 | a line gives a header if and only if it is, whitespace aside, a name without colon, a colon and a value, and the header is that name in lower case with that value |
| `EgressGrammar.HeadersExactly` | sidecar/src/egress.rs:115-124 | the headers are, one by one and in order, those of the lines that are not empty |
| `EgressGrammar.RequestLineExactly` | sidecar/src/egress.rs:110-113 | a line is a request line if and only if it is two words without space and the rest, with one space after each word |
| `EgressGrammar.AcceptedExactly` | sidecar/src/egress.rs:97-133 | a buffer is accepted with a head if and only if its text before the first blank line is UTF-8 and is, line by line, that request line and those headers |
| `EgressGrammar.RefusedExactly` | sidecar/src/egress.rs:97-133 | every other buffer: awaited or too large without a blank line, else refused for its encoding, else for a request line of fewer than three words, else if and only if some line that is not empty has no colon |
| `Text.TrimExactly` | sidecar/src/egress.rs:122-122 | trimming takes away whitespace only, all of it, at both ends |
| `Unicode.WhiteExactly` | sidecar/src/egress.rs:122-122 | the characters trimmed are those with the White_Space property of Unicode |
| `Unicode.Utf8Exactly` | sidecar/src/egress.rs:107-107 | the texts taken for valid are exactly the encodings of sequences of scalar values, as section 3 of RFC 3629 defines them |
| `EgressReader.ReadHead` | sidecar/src/egress.rs:264-282 | the read loop computes the outcome of the reads, and its buffer never exceeds 32768 + 4096 bytes |
| `EgressReader.ChunkingIrrelevant` | sidecar/src/egress.rs:264-282 | when the blank line completes by byte 32769, after byte 36864, or never, every way of cutting the stream into reads gives the one verdict read off the stream itself |
| `EgressReader.BytewiseRefused` | sidecar/src/egress.rs:99-104 | read byte by byte, a head whose blank line completes after byte 32769 is refused as too large |
| `EgressReader.OneBigReadParses` | sidecar/src/egress.rs:264-282 | for every stream in between there is a cutting whose last full read brings the blank line in, and the same head is then not too large |
| `EgressReader.ChunkingIrrelevantExactly` | sidecar/src/egress.rs:264-282 | the verdict is the same for all cuttings if and only if the blank line completes outside bytes 32770 to 36864 |
| `EgressReader.AcceptedKeepsBytes` | sidecar/src/egress.rs:264-282 | on acceptance the buffer followed by the reads still to come is the client stream, and the head is the one of the whole stream |
| `EgressForward.RequestHead.GetHeader` | sidecar/src/egress.rs:73-79 | header lookup returns the value of the first header of the lower-cased name, and nothing if and only if there is none |
| `EgressForward.LookupExactly` | sidecar/src/egress.rs:73-79 | a value is found if and only if it is that of the first header of the name |
| `EgressForward.RequestHead.RemoveHeader` | sidecar/src/egress.rs:83-88 | removal in place drops exactly the values of the name and returns their number |
| `EgressForward.WithoutRemovesExactly` | sidecar/src/egress.rs:83-88 | removing a name removes every value under it and loses, gains or reorders no value of another name |
| `EgressForward.WithoutConcat` | sidecar/src/egress.rs:83-88 | removal looks at one header after the other and keeps the others as they stand |
| `EgressForward.ChooseRoute` | sidecar/src/egress.rs:397-431 | host, port, scheme and forwarded target as the handler chooses them, and the missing-host case |
| `EgressForward.StripProxyHeaders` | sidecar/src/egress.rs:434-436 | both proxy headers are removed from the head in place |
| `EgressForward.HandlePlainHttp` | sidecar/src/egress.rs:387-494 | for an allowed address, a dial that succeeds and an upstream that takes every write, what goes upstream is the rewritten head, then the buffered bytes behind the head, then everything still to be read; nothing when there is no host |
| `EgressForward.CopyRest` | sidecar/src/egress.rs:518-526 | the client-to-upstream copy adds the remaining reads in order |
| `EgressForward.AbsoluteTargetConserved` | sidecar/src/egress.rs:406-417 | authority and origin form together are the absolute target behind its scheme if and only if it has a slash there; otherwise a query is taken for part of the authority |
| `EgressForward.AbsoluteTargetRouted` | sidecar/src/egress.rs:397-417 | an absolute target goes, for every host, text of a port and path, to the host and port it names and is cut to its path, or to a slash if it has none, whatever the Host header says; without a port, and a host that does not end like one with a port, the scheme decides |
| `EgressForward.OriginTargetRouted` | sidecar/src/egress.rs:418-421 | any other target is kept and sent in the clear to the host of the first header named host, on the port it names, however written, or 80 |
| `EgressForward.MissingHostExactly` | sidecar/src/egress.rs:418-426 | there is nowhere to send a request if and only if its target names no scheme and no header is named host |
| `EgressForward.HostPortRoundTrip` | sidecar/src/egress.rs:187-194 | an explicit port is recovered for every host and every text that reads as a u16 port |
| `EgressForward.BareHostExactly` | sidecar/src/egress.rs:187-194 | a host alone keeps the default port if and only if it does not itself end in a colon and a port |
| `EgressForward.RewrittenIsWellFormed` | sidecar/src/egress.rs:397-467 | rewriting target and headers keeps a head well formed |
| `EgressForward.ForwardedBytes` | sidecar/src/egress.rs:467-517 | for every cutting of the client stream the upstream bytes are the rewritten head followed by exactly the client bytes behind the head |
| `EgressForward.UpstreamReadsRewrittenHead` | sidecar/src/egress.rs:467-517 | an upstream that parses them reads the client method and version, the target of the route and the headers without the proxy headers, and right behind them the whole client body |
| `EgressForward.ForwardedHeaders` | sidecar/src/egress.rs:197-197 | after rewriting no proxy header is left and every other header keeps its values in order |
| `EgressForward.TunnelLosesBufferedBytes` | sidecar/src/egress.rs:264-289 | a CONNECT tunnel delivers all client bytes behind the head if and only if some whole number of reads brings exactly the stream up to its first blank line, otherwise exactly the rest of the read that crosses it is lost; any other routed request delivers all of them behind its rewritten head |
| `EgressForward.PipelinedBytesLost` | sidecar/src/egress.rs:284-346 | every CONNECT head that arrives in one read with its first tunnel bytes loses all of them |
| `EgressForward.ConnectLossReached` | sidecar/src/egress.rs:284-346 | so do a CONNECT request for any printable target and any early bytes that fit one read |
| `EgressForward.HandleConnect` | sidecar/src/egress.rs:291-363 | for an allowed address and a dial that succeeds, a tunnel goes to the host and port of the target, 443 by default, and carries the bytes still to be read |
| `EgressForward.HandleConnection` | sidecar/src/egress.rs:258-289 | under the same two assumptions, a connection from its first read to its upstream socket, dispatched on the method without regard to case |
| `ExecPump.Keeps` | sidecar/src/git_ssh_proxy.rs:520-605 | every step of handler, upstream or pump keeps the invariant: stream order, EOF behind data, close last, bounded queue, one closing reply |
| `ExecPump.KeepsAlong` | sidecar/src/git_ssh_proxy.rs:873-1000 | the invariant holds along every run |
| `ExecPumpRuns.StreamIntact` | sidecar/src/git_ssh_proxy.rs:968-981 | in every interleaving the chunks handed upstream, then the one in hand, then the queue are in order exactly the chunks enqueued, all written if no write failed, and the queue holds at most 64 |
| `ExecPumpRuns.GapOpensExactly` | sidecar/src/git_ssh_proxy.rs:922-930 | a step writes a later chunk over a lost one if and only if it is a successful write of the EOF drain after a failed write |
| `ExecPumpRuns.GapFreeExactly` | sidecar/src/git_ssh_proxy.rs:922-930 | a run has no such gap if and only if no drain write succeeds after a failure |
| `ExecPumpRuns.WrittenIsPrefix` | sidecar/src/git_ssh_proxy.rs:968-981 | in those runs the upstream has seen a prefix of what the agent sent, failures included |
| `ExecPumpRuns.GapReached` | sidecar/src/git_ssh_proxy.rs:913-938 | a run in which "a" is lost, "b" is written and the stream is closed with EOF |
| `ExecPumpRuns.EofBehindData` | sidecar/src/git_ssh_proxy.rs:913-938 | at most one EOF goes upstream, and without an earlier failed write everything accepted before the EOF callback was written before it |
| `ExecPumpRuns.EofEndsObedientStream` | sidecar/src/git_ssh_proxy.rs:913-938 | if the agent sends nothing after EOF (section 5.3 of RFC 4254) the upstream EOF comes after the complete stream and no data follows it |
| `ExecPumpRuns.CloseEnabledExactly` | sidecar/src/git_ssh_proxy.rs:520-605 | the close callback can run in every state but while a data callback is suspended, and all callbacks are blocked exactly when one is suspended on a full queue |
| `ExecPumpRuns.CloseBlockedReached` | sidecar/src/git_ssh_proxy.rs:541-541 | a run with 65 data callbacks before the upstream is connected, after which no callback, close included, can run |
| `ExecPumpRuns.BlockedEnablesExactly` | sidecar/src/git_ssh_proxy.rs:967-990 | after a failed write, with a full queue, a data callback suspended on it and no control message, nothing but an upstream message or displacement can happen |
| `ExecPumpRuns.BlockedUntilUpstreamEnds` | sidecar/src/git_ssh_proxy.rs:967-990 | from such a state no run without displacement takes any other step until an upstream message ends the pump: the agent can neither send nor close |
| `ExecPumpRuns.BlockedReached` | sidecar/src/git_ssh_proxy.rs:967-990 | one failed write under a full queue reaches such a state |
| `ExecPumpRuns.CloseNeedsNoSpace` | sidecar/src/git_ssh_proxy.rs:589-605 | the close callback hands over its message whatever the data queue holds, and nothing is queued behind it |
| `ExecPumpRuns.ControlGoneExactly` | sidecar/src/git_ssh_proxy.rs:610-720 | the branch for a vanished control sender can be taken if and only if the senders were displaced, by a second exec request on the channel or the cleanup of an earlier pump, and the control messages are worked off; with one exec request it never is |
| `ExecPumpRuns.ControlGoneReached` | sidecar/src/git_ssh_proxy.rs:955-965 | a displaced pump that closes its upstream and the agent channel |
| `ExecPumpRuns.TeardownBounded` | sidecar/src/git_ssh_proxy.rs:939-954 | after the close callback, or displacement at any moment, a suspended data callback included, every run takes at most the queued control messages in control steps and a bounded number of pump steps |
| `ExecPumpRuns.TeardownProgress` | sidecar/src/git_ssh_proxy.rs:873-1000 | and a pump step is always enabled, so teardown ends within the stated bound |
| `ExecPumpRuns.NothingAfterClose` | sidecar/src/git_ssh_proxy.rs:939-1000 | no upstream write follows the upstream close, and the agent channel is closed exactly once, last |
| `ExecPumpReplies.AgentReceivesExactly` | sidecar/src/git_ssh_proxy.rs:876-910 | in every interleaving the agent is sent, in order, exactly the upstream chunks that its channel took, with an EOF wherever the upstream sent its EOF or exit status |
| `ExecPumpReplies.StatusExactly` | sidecar/src/git_ssh_proxy.rs:897-901 | the agent is told an exit status at most once: the one of the upstream, or 1 when the connection, the forwarding or the upstream was lost |
| `ExecPumpReplies.FarewellIsLast` | sidecar/src/git_ssh_proxy.rs:876-1000 | an exit status is followed by EOF and close, a loss is told as status 1 and close, an upstream close as a close, in each case last |
| `ExecPumpReplies.DoneExactly` | sidecar/src/git_ssh_proxy.rs:876-1000 | the pump is over if and only if a failed connect, a failed forward, an exit status, a close or the loss of the upstream ended it or it closed the upstream itself |
| `ExecPumpReplies.EofForwardedExactly` | sidecar/src/git_ssh_proxy.rs:909-938 | whenever the pump is back at its select with no EOF message left, an EOF has gone upstream if and only if the agent asked for one while its senders were in place |
| `ExecPumpReplies.EofProgress` | sidecar/src/git_ssh_proxy.rs:909-938 | until then the live pump always has a step of its own to take |
| `ExecPumpAgent.AcceptedExactly` | sidecar/src/git_ssh_proxy.rs:520-546 | the chunks accepted are those of the data callbacks: a live pump has taken, in order, every chunk sent while its senders were in place but the one a callback is suspended with, a pump that is over no others |
| `ExecPumpAgent.EofFollowsAllData` | sidecar/src/git_ssh_proxy.rs:913-938 | an EOF goes upstream only when the agent asked for one, and without an earlier failed write every chunk sent before that callback was written before it |
| `ExecPumpAgent.ObedientExactly` | sidecar/src/git_ssh_proxy.rs:520-568 | the agent has kept to section 5.3 of RFC 4254 if and only if no chunk came in after its EOF |
| `ExecPumpAgent.AnswersRecorded` | sidecar/src/git_ssh_proxy.rs:922-990 | each write and the EOF is on record, in order, as the upstream answered it, and the data branch closes if and only if a write has failed or the senders are gone |
| `ExecPumpAgent.DataGoneExactly` | sidecar/src/git_ssh_proxy.rs:968-990 | the data branch can find its senders gone if and only if they are and every chunk sent through them has been handed upstream |
| `ExecPumpAgent.WaitsExactly` | sidecar/src/git_ssh_proxy.rs:873-993 | a live pump is left waiting for the upstream or the agent if and only if it is at its select with no control message, its senders in place and no chunk it could still write |
| `ExecPumpTask.PumpTask.Data` | sidecar/src/git_ssh_proxy.rs:520-546 | the data callback with room in the queue is a run of the step relation that enqueues the bytes |
| `ExecPumpTask.PumpTask.ChannelEof` | sidecar/src/git_ssh_proxy.rs:553-569 | the EOF callback is one step of the relation |
| `ExecPumpTask.PumpTask.ChannelClose` | sidecar/src/git_ssh_proxy.rs:589-605 | the close callback is one step of the relation |
| `ExecPumpTask.PumpTask.LoseSenders` | sidecar/src/git_ssh_proxy.rs:676-691 | the entry of the pump is replaced or removed by another pump: one step of the relation |
| `ExecPumpTask.PumpTask.Drain` | sidecar/src/git_ssh_proxy.rs:922-931 | the drain loop, for every pattern of failing writes, is a run that ends ready to send EOF |
| `ExecPumpTask.PumpTask.ControlBranch` | sidecar/src/git_ssh_proxy.rs:913-954 | the control branch is a run of the relation, and ends the pump exactly on close |
| `ExecPumpTask.PumpTask.DataBranch` | sidecar/src/git_ssh_proxy.rs:968-981 | the data branch is a run of the relation, and a failed write stops it for good |
| `ExecPumpTask.PumpTask.UpstreamBranch` | sidecar/src/git_ssh_proxy.rs:877-912 | the upstream branch is one step of the relation for every kind of message |
| `OauthRefresh.OauthCache.EnsureFresh` | sidecar/src/model_proxy.rs:813-926 | one request against the cache in place: effective credential, margin, cooldown, refresh, and the recorded success or failure, is the specification step |
| `OauthRefresh.FailuresAreSpaced` | sidecar/src/model_proxy.rs:858-897 | for arbitrary, even backward, clock readings failures i and j of a streak are recorded at least (j - i) * 60000 ms apart, and the failure count is the length of the streak |
| `OauthRefresh.AttemptedExactly` | sidecar/src/model_proxy.rs:809-871 | over every run a refresh is attempted exactly when the credential in force ends within a minute and the last failure of the streak lies at least a minute back; a credential handed out unchanged lasts longer |
| `OauthRefresh.FlagExactAlong` | sidecar/src/model_proxy.rs:873-922 | throughout a sequential run the flag exists exactly when at least five refreshes have failed since the last success, if and only if every flag file operation that mattered succeeded |
| `OauthRefresh.MissedFlagStaysMissing` | sidecar/src/model_proxy.rs:911-922 | a failed flag write at the fifth failure is never made up for in that streak |
| `OauthRefresh.MissedFlagReached` | sidecar/src/model_proxy.rs:887-922 | five failing requests a minute apart after which there is no flag |
| `OauthRefresh.FlagComesLate` | sidecar/src/model_proxy.rs:858-922 | the request that raises the flag is the fifth failure of its streak and at least 240000 ms after the first |
| `OauthRefresh.LatestTokenPresented` | sidecar/src/model_proxy.rs:813-833 | under an unchanged file that grants outrank, every attempt presents the token of the most recent success, and no replaced token again unless the server reissues it |
| `OauthRefresh.LatestTokenExactly` | sidecar/src/model_proxy.rs:813-886 | over any run under one file every attempt presents the token of the most recent success if and only if every grant followed by another attempt outranks the file or kept its token |
| `OauthRefresh.NextTokenExactly` | sidecar/src/model_proxy.rs:821-830 | the attempt after a success presents the granted token if and only if the grant outranks the file; otherwise it goes back to the file token |
| `OauthRefresh.RelativeGrantOutranks` | sidecar/src/model_proxy.rs:978-996 | a grant with no absolute expiry and a relative lifetime over a minute outranks the file by itself |
| `OauthRefresh.ConsumedTokenReplayed` | sidecar/src/model_proxy.rs:801-830 | a grant with an absolute expiry in the past makes the next attempt present the consumed token again |
| `OauthGrants.RefreshedExactly` | sidecar/src/model_proxy.rs:978-996 | a request is answered with a fresh credential if and only if it presented a refresh token and the endpoint granted; the credential has the access token of the grant, its refresh token or else the presented one, its account or else the one before, and exactly the expiry it states, in milliseconds or seconds, relative, or 55 minutes |
| `OauthGrants.HandedOutExactly` | sidecar/src/model_proxy.rs:813-833 | over every run, under changing files, a credential handed out without refresh is that of the last grant, access token included, if and only if it is of the account of the file and ends later; otherwise the one of the file |
| `OauthGrants.OtherAnswers` | sidecar/src/model_proxy.rs:839-871 | an API key passes untouched; in cooldown the caller is told the failure that began it and the whole seconds left, at least one |
| `OauthInterleaving.RecordMatchesStreak` | sidecar/src/model_proxy.rs:873-897 | in all interleavings under the lock a failure is recorded exactly when the streak count is positive |
| `OauthInterleaving.FlagIsLastWrite` | sidecar/src/model_proxy.rs:873-922 | in every interleaving the flag exists if and only if a write of it has succeeded that no later success has removed |
| `OauthInterleaving.StaleFlagReached` | sidecar/src/model_proxy.rs:888-922 | six overlapping requests after which the flag exists although the last refresh succeeded |
| `LogStream.LogStreamer.Take` | control-plane/src/api/sse.rs:38-71 | one row: skip a seen id, advance the cursor and prune the set, then filter; what was emitted is always the filtered rows taken |
| `LogStream.LogStreamer.Poll` | control-plane/src/api/sse.rs:38-71 | the loop over a query result folds that step over the rows |
| `LogStream.LogStreamer.Run` | control-plane/src/api/sse.rs:29-90 | the whole loop: it sends the rows of every round until a query fails or the loop is found terminal or missing, and says whether an end event goes out |
| `LogStream.SaysEndExactly` | control-plane/src/api/sse.rs:73-87 | an end event is sent exactly when some round finds the loop terminal before any failure, and the rows sent by then are those of all rounds through that one |
| `LogStream.PollTakesNewRows` | control-plane/src/api/sse.rs:30-71 | one poll takes, in query order, exactly the rows not yet taken, and misses exactly the new ones behind the cursor, for ever |
| `LogStream.LateFromTables` | control-plane/src/api/sse.rs:25-71 | the rows the stream misses are those that were inserted with a timestamp older than one an earlier query could see: a condition on the tables alone |
| `LogStream.StreamDeliversOnce` | control-plane/src/api/sse.rs:25-90 | after any number of polls the rows taken are, each once and in timestamp order, the rows of the last table but the late ones, and the dedup set is the ids taken at the cursor timestamp |
| `LogStream.CompleteExactly` | control-plane/src/api/sse.rs:25-90 | the stream equals "deliver the whole log once" if and only if no row is inserted with a timestamp older than one already queried |
| `LogStream.LateRowReached` | control-plane/src/api/sse.rs:25-71 | two polls after which a row of the table has not been delivered and never will be |
| `LogStream.EmittedExactly` | control-plane/src/api/sse.rs:53-71 | while no row is late the client is sent each row of the last table once that is of the round and stage asked for, if any, in timestamp order |
| `LogStream.LoopEmitsExactly` | control-plane/src/api/sse.rs:29-90 | and so at the end of the whole loop, whatever ended it |
| `LogStream.EndCutsOff` | control-plane/src/api/sse.rs:73-87 | the rows missing when a terminal loop ends the stream are exactly the late ones and those inserted after the last query |
| `EventSplitter.LogClient.PrintEvent` | cli/src/commands/logs.rs:127-145 | the lines of one event are shown in order up to an end payload |
| `EventSplitter.LogClient.Receive` | cli/src/commands/logs.rs:121-147 | for one chunk the inner loop terminates, shows the output of exactly the events completed by it, and leaves the text behind the last blank line |
| `EventSplitter.LinesUndoTerminators` | cli/src/commands/logs.rs:128-128 | the lines of an event come back out whichever of the two line terminators each has |
| `EventSplitter.CutAppend` | cli/src/commands/logs.rs:123-147 | cutting text in two pieces gives the events and the rest of the whole |
| `EventSplitter.ChunkingIrrelevant` | cli/src/commands/logs.rs:121-147 | after any sequence of chunks the events and the buffer are those of the text in one piece |
| `EventSplitter.CutLosesNothing` | cli/src/commands/logs.rs:126-146 | the events, each followed by a blank line, and then the buffer are the text received, and neither an event nor the buffer holds a blank line |
| `EventSplitter.DisplayIgnoresChunking` | cli/src/commands/logs.rs:121-147 | what is shown, and whether the end was seen, depends on the text alone, end event or not |
| `EventSplitter.OnLinesConcat` | cli/src/commands/logs.rs:126-146 | what is shown for lines is what is shown for each of them, only behind the data prefix, up to the first end |
| `LogDelivery.CutUndoesRender` | cli/src/commands/logs.rs:126-146 | the client cuts a wire of one-line frames back into the frames |
| `LogDelivery.ClientShowsPayloads` | cli/src/commands/logs.rs:121-147 | for every chunking of the wire, keep-alives in between or not, the client shows exactly the payloads in order up to the first end |
| `LogDelivery.LogShownOnce` | control-plane/src/api/sse.rs:25-97 | server and client together: while no row is late the terminal shows each matching row of the table exactly once, in timestamp order |
| `LogDelivery.LogEndsOnce` | cli/src/commands/logs.rs:135-138 | a stream closed by the end event is shown as its rows, then the end, whatever still follows on the wire |
| `Divergence.DetectIsAncestryOrder` | control-plane/src/git/bare_repo.rs:140-194 | over any commit graph with both refs present the result is the ancestry order: remote reachable from local, local strictly below remote, or incomparable, with the two SHAs in their places |
| `Divergence.ImplementationsAgree` | control-plane/src/git/mod.rs:360-405 | has_diverged with the local tip as expected commit is true exactly when detect_divergence says ForceDeviated; missing refs and errors map as stated |
| `Divergence.MissingRefsExactly` | control-plane/src/git/mod.rs:360-405 | the branch is gone if and only if a ref does not resolve; what has_diverged calls diverged is a remote tip neither equal to nor comparable with the expected commit |
| `Divergence.UnknownExpected` | control-plane/src/git/mod.rs:360-405 | an expected commit the repository does not know counts as diverged from every other tip |
| `Divergence.DeviatesExactly` | control-plane/src/git/bare_repo.rs:164-193 | for every step of agent or engineer, exactly which ones make a branch deviate and which heal it; a deviated branch admits no plain push or fast-forward |
| `Divergence.AgentNeverDeviates` | control-plane/src/git/bare_repo.rs:164-193 | a run of local commits, plain pushes and fast-forwards from a branch that is ahead never deviates |
| `Divergence.ForklessExactly` | control-plane/src/git/bare_repo.rs:164-193 | a run from an undeviated branch never deviates on its way if and only if none of its steps forks |
| `Divergence.ForkWithoutForcePush` | control-plane/src/git/bare_repo.rs:17-21 | an unpushed commit and an ordinary engineer push reach ForceDeviated without any force push |
| `GitRepo.BareRepo.EnsureWorktreeAt` | control-plane/src/git/mod.rs:733-755 | an existing directory is kept, otherwise git adds the worktree or refuses |
| `Worktrees.EnsuredExactly` | control-plane/src/git/mod.rs:733-755 | an ensure succeeds if and only if the directory is there already, whoever holds it, or git adds it for a branch that nothing has checked out; nothing else moves |
| `GitRepo.BareRepo.WriteIn` | control-plane/src/git/mod.rs:153-247 | write, stage and commit in a worktree, with nothing committed when nothing changed and the staged file left behind when the commit fails |
| `GitRepo.BareRepo.WriteFile` | control-plane/src/git/mod.rs:419-471 | through the persistent worktree when there is one, otherwise through a temporary one removed whatever the write returned |
| `GitRepo.BareRepo.Remove` | control-plane/src/git/mod.rs:508-592 | removal of a path with each early return, the two spawn failures included |
| `GitRepo.BareRepo.Create` | control-plane/src/git/mod.rs:290-345 | create, or act on the pull request state of an existing branch; the caller is told the base commit |
| `GitRepo.BareRepo.Recreate` | control-plane/src/git/mod.rs:316-338 | clean up worktree, local and remote branch, then create anew |
| `GitRepo.BareRepo.Push` | control-plane/src/git/mod.rs:768-777 | a plain push moves the remote to the local tip, if it is a fast-forward |
| `BranchReuse.OpenIsUntouched` | control-plane/src/git/mod.rs:290-313 | for an existing branch with an open pull request the call fails and tips, remote and worktrees are as they were |
| `BranchReuse.LostExactly` | control-plane/src/git/mod.rs:290-345 | for an existing branch, exactly which pull request states and answers of git lose its local tip, its remote tip and its worktree, and what the tip becomes |
| `BranchReuse.SucceedsExactly` | control-plane/src/git/mod.rs:290-345 | exactly which let the call succeed, for an existing branch and for a new one |
| `Worktrees.TempSurvivesExactly` | control-plane/src/git/mod.rs:419-592 | a call leaves a temporary worktree behind if and only if its removal fails or git rm or the commit behind it cannot be spawned, whatever the inner write returned |
| `Worktrees.LeakReached` | control-plane/src/git/mod.rs:442-470 | from a clean repository, a write whose worktree removal fails and a removal whose commit cannot be spawned each leave a temporary worktree |
| `Worktrees.HomeAlong` | control-plane/src/git/mod.rs:137-150 | in every leak-free sequence of ensure, write, remove and create no branch is checked out twice and no temporary worktree survives |
| `Worktrees.WriteLands` | control-plane/src/git/mod.rs:419-471 | with worktrees at home a write is never refused by the one-worktree rule: it commits the base tree with one path set on top of its target and moves no other branch |
| `Worktrees.RemoveLands` | control-plane/src/git/mod.rs:508-592 | a removal whose commands run through leaves nothing at or under the path on its target branch, keeps every other file and moves no other branch; it fails exactly when there is nothing to commit |
| `Worktrees.RemoveOkMeansGone` | control-plane/src/git/mod.rs:508-592 | however the commands end, Ok means that there was nothing to remove or that nothing is left at the path on the branch reached |
| `Worktrees.NothingToRemove` | control-plane/src/git/mod.rs:508-519 | a branch that does not exist or has nothing at the path: Ok, and nothing is done |
| `Worktrees.UnderExactly` | control-plane/src/git/mod.rs:535-541 | a removed path covers itself and what lies behind it and a slash, and no sibling whose name goes on otherwise |
| `Worktrees.WriteAddsOnlyItsPath` | control-plane/src/git/mod.rs:195-247 | a write that goes through changes its one path on the target branch and nothing else if and only if nothing else was staged in the worktree it used |
| `Worktrees.WriteReachesBranchExactly` | control-plane/src/git/mod.rs:136-139 | a write reaches its own branch if and only if no other branch holds the shared directory |
| `Worktrees.DirSharedExactly` | control-plane/src/git/mod.rs:136-139 | two branches share a directory if and only if their names differ at most in a slash for a dash |
| `Worktrees.WriteLandsOnOtherBranch` | control-plane/src/git/mod.rs:136-139 | two branches whose names differ in a slash and a dash: a spec written for one is committed to the other, with Ok |
| `Worktrees.NothingStagedAlong` | control-plane/src/git/mod.rs:153-247 | in every sequence where no call stops between staging and committing nothing stays staged |
| `Worktrees.FailedWriteLandsLater` | control-plane/src/git/mod.rs:195-247 | a write that failed after staging is committed by the next successful write to the same worktree |
| `Worktrees.LeakStaysAlong` | control-plane/src/git/mod.rs:442-583 | no later sequence of operations, on whatever branches, removes a leaked worktree, and it stays the only one its branch is checked out in |
| `Worktrees.LeakedBranchIsStuck` | control-plane/src/git/mod.rs:544-583 | after a leak and any further operations, an operation on the leaked branch that needs a worktree, or the branch anew, fails unless another branch has taken its directory |
| `StartSaga.OneHolderAlong` | control-plane/src/api/handlers.rs:273-285 | concurrent starts, resumes and the reconciler never leave two active rows on one branch |
| `StartSaga.WriteTouchesOnly` | control-plane/src/git/mod.rs:419-471 | a spec write whose directory is its own moves only its branch, and Ok means the file is there |
| `StartSaga.OneInFlight` | control-plane/src/api/handlers.rs:272-287 | two requests between insert and reply are on different branches |
| `StartSaga.SaneStepExactly` | control-plane/src/api/handlers.rs:276-346 | an event keeps ownership, and what each request has achieved on its branch, if and only if it retires no row whose request is still being served |
| `StartSaga.SaneExactlyAlong` | control-plane/src/api/handlers.rs:276-346 | an interleaving of any number of requests and other writers keeps them throughout if and only if none of its events does |
| `RecordedSha.RecordedShaKeptExactly` | control-plane/src/state/postgres.rs:632-701 | from any state, and from the moment /start records a SHA, the row keeps it throughout if and only if no whole-row update made from a copy with another SHA read before lands after it and no other writer moves the SHA on |
| `RecordedSha.EveryEarlyCopyIsStale` | control-plane/src/state/postgres.rs:632-701 | where nobody else resolves SHAs, every copy read before the recording is of that kind |
| `RecordedSha.CreatedAgreesExactly` | control-plane/src/api/handlers.rs:303-373 | in every interleaving that retires no row under its request, when Created is about to be answered for an uploaded spec the row is active and the commit it recorded is the local tip and the remote tip with the spec at its path; the row has held that SHA since if and only if no such copy has landed |
| `StartRuns.StaleTickNullsSha` | control-plane/src/loop_engine/driver.rs:98-193 | a tick that read the row after its insert lands after the SHA is recorded: Created is answered for a row without SHA |
| `StartRuns.CancelledStartDeletesSuccessor` | control-plane/src/api/handlers.rs:318-329 | a run in which a row is retired under its request and the compensation deletes the branch of a second, successful start |
| `StartOutcomes.BrokenFreesBranchExactly` | control-plane/src/api/handlers.rs:288-346 | in every such interleaving an error reply after the insert leaves the branch free for a retry if and only if the FAILED update succeeded and no resume is requested |
| `StartOutcomes.DefaultShaExactly` | control-plane/src/api/handlers.rs:288-335 | for a spec from the default branch the recorded SHA is the branch tip if and only if the branch was made anew or already stood at the base |
| `StartOutcomes.StepsBounded` | control-plane/src/api/handlers.rs:276-346 | every request replies within ten of its steps |
| `StartCompensation.CompensationDropsExactly` | control-plane/src/api/handlers.rs:318-329 | the compensation removes the branch locally unless it is checked out or git refuses, and on the remote unless git refuses |
| `StartCompensation.ReusedBranchLostExactly` | control-plane/src/api/handlers.rs:288-346 | a lone start on a reused branch that ends in an error: the branch is lost locally if and only if git does not refuse and the branch is neither checked out nor left so by a leaked worktree, and on the remote if and only if a spec was uploaded and git does not refuse; where it survives its old tip is in its history |
| `StartRuns.ReusedBranchLostReached` | control-plane/src/api/handlers.rs:335-346 | a start that finds a branch with a commit of its own, reuses it, cannot record its SHA, and deletes branch and commit |
| `StartRuns.WrongShaReached` | control-plane/src/api/handlers.rs:288-335 | a start from the default branch that reuses a branch and records the base as its SHA |
| `StartCompensation.CreatedExactly` | control-plane/src/api/handlers.rs:276-373 | with every answer good, whatever earlier attempts have left: a start is Created if and only if no active row holds its branch, no leaked worktree has it checked out, and its spec is from the default branch, or the branch exists locally, or it is absent on the remote, or its remote tip is an ancestor of the tip the spec write makes; it is a conflict if and only if an active row holds the branch |
| `StartCompensation.RetryIsCreatedExactly` | control-plane/src/api/handlers.rs:318-329 | after every lone start that ends in an error, at whatever step, and could mark its row FAILED, a retry with every answer good is Created if and only if no leaked worktree holds the branch and nothing left on the remote refuses its push |
| `StartCompensation.UploadLeavesNoRemote` | control-plane/src/api/handlers.rs:318-329 | a failed upload that had its branch, and whose remote delete goes through, leaves nothing on the remote |
| `BranchReuse.OpenPullRequestIsSafe` | control-plane/src/api/handlers.rs:276-301 | a start on a branch whose pull request is open changes nothing in the repository and is not inserted, a conflict, or Broken |
| `StartRuns.StrandedUploadReached` | control-plane/src/api/handlers.rs:318-329 | an upload whose push arrives without an answer and whose clean-up reaches only the local branch; the branch is free, and a retry with every answer good breaks at its push |
| `StartRuns.StrandedDefaultReached` | control-plane/src/api/handlers.rs:335-346 | without any refused delete: a start from the default branch that compensates for a branch it has reused leaves it on the remote, and an upload after it breaks at its push |
| `StartHandler.ControlPlane.Start` | control-plane/src/api/handlers.rs:276-373 | the handler after validation is, for every answer of database and git, one request run of the saga |
| `StartHandler.ControlPlane.CommitSpec` | control-plane/src/api/handlers.rs:1429-1505 | write, read back, push: the same steps of the saga |
| `StartHandler.ControlPlane.Undo` | control-plane/src/api/handlers.rs:335-346 | the compensations in the order of the source |
| `EngineerIdentity.PickIdentity` | control-plane/src/api/handlers.rs:1441-1469 | the loop picks name and e-mail of the most recently updated valid entries, first of equals, or the two fallbacks |
| `EngineerIdentity.NewestExists` | control-plane/src/api/handlers.rs:1441-1459 | such an entry exists as soon as a valid one does |
| `DrainTracker.CounterIsLiveGuards` | sidecar/src/shutdown.rs:38-48 | in every interleaving the counter is the number of live guards and no drop underflows, while they fit the word |
| `DrainTracker.TrueMeansSeenZero` | sidecar/src/shutdown.rs:53-63 | a call returns true only if the counter was zero at a moment inside it |
| `DrainTracker.LostExactly` | sidecar/src/shutdown.rs:57-61 | a wakeup is lost if and only if a waiter registers after the last notification with no guard alive; no drop loses one |
| `DrainTracker.NeverStuck` | sidecar/src/shutdown.rs:57-61 | a waiter that always registers while a guard is alive or notifying is never stuck |
| `DrainTracker.WokenByLastDrop` | sidecar/src/shutdown.rs:72-85 | a waiter registered when the last guard notifies is woken and returns true at its next load |
| `DrainTracker.StuckTimesOut` | sidecar/src/shutdown.rs:57-62 | a stuck waiter can only time out, with no guard alive all along |
| `DrainTracker.LostWakeupReached` | sidecar/src/shutdown.rs:53-85 | a run in which the drop falls between load and registration and wait_for_drain returns false on a drained tracker |
| `DrainTracker.TimeoutAtZeroExactly` | sidecar/src/shutdown.rs:57-85 | a timeout returns false on a zero counter if and only if the waiter is stuck or the last guard has decremented and not yet notified |
| `DrainTracker.FalseAtZeroExactly` | sidecar/src/shutdown.rs:53-85 | over every run a call returns false on a drained tracker if and only if its timer ends a late registration or fires between the last decrement and its notification |
| `DrainTracker.EarlyTimerReached` | sidecar/src/shutdown.rs:57-85 | a run in which a waiter registered in time is told false by a timer between decrement and notification |
| `DrainTracker.ConnectionTracker.TrackGuard` | sidecar/src/shutdown.rs:38-43 | tracking is one step of the relation |
| `DrainTracker.ConnectionTracker.FetchSub` | sidecar/src/shutdown.rs:73-76 | the decrement is one step and reports the number of guards before it |
| `DrainTracker.ConnectionTracker.NotifyWaiters` | sidecar/src/shutdown.rs:77-82 | the notification wakes every registered waiter |
| `DrainTracker.ConnectionTracker.WaitTurn` | sidecar/src/shutdown.rs:53-61 | a turn of the waiter is one step of the relation |
| `Profiles.SoundAlong` | cli/src/commands/profile.rs:97-235 | over every sequence of commands, saved or not, the current profile exists, names stay valid, and a store with a profile never returns to none |
| `Profiles.ReachableExactly` | cli/src/commands/profile.rs:97-235 | the invariant is exact: a configuration is reachable from the empty one if and only if it is sound and its profiles are such as add takes |
| `Profiles.RenameBack` | cli/src/commands/profile.rs:190-219 | renaming there and back restores the configuration |
| `Profiles.AddThenRemoveExactly` | cli/src/commands/profile.rs:97-187 | removing a profile just added is accepted if and only if there was one already and the add did not switch, and then restores the configuration |
| `Profiles.AddedExactly` | cli/src/commands/profile.rs:97-162 | after any commands an accepted add stores each argument in its field, inherits what is not given from the current profile, touches no other profile, and switches if and only if there was none or it is told to |
| `Profiles.CommandsExactly` | cli/src/commands/profile.rs:165-235 | after any commands, exactly when use, remove and rename are accepted and exactly what they change; the last profile is never removed |
| `Profiles.ValidNameExactly` | cli/src/config.rs:13-25 | a name is one or more ASCII letters, digits and dashes and does not begin with a dash |
| `Profiles.ResolvesExactly` | cli/src/config.rs:95-160 | after any commands and for every flag, variable and pin, resolution finds the first name given, else the current profile, if and only if that profile exists; without any of the three it fails only on an empty store |
| `Profiles.BlankExactly` | cli/src/config.rs:95-160 | a variable or pin counts as absent if and only if it is white space throughout; otherwise the white space around it is ignored |
| `Profiles.NemoConfig.RunAdd` | cli/src/commands/profile.rs:97-162 | add in place, with inherited name and e-mail and first-profile activation; a failed save leaves the file alone |
| `Profiles.NemoConfig.RunRemove` | cli/src/commands/profile.rs:165-187 | remove in place with its three refusals |
| `Profiles.NemoConfig.RunRename` | cli/src/commands/profile.rs:190-219 | rename in place, current profile included |
| `Profiles.NemoConfig.RunUse` | cli/src/commands/profile.rs:222-235 | switch in place |
| `GitUrl.SchemeExactly` | sidecar/src/git_url.rs:88-142 | the parser of the part behind the scheme accepts exactly the texts [user@]host[:port]/path that are well formed and gives exactly what they denote |
| `GitUrl.ParseExactly` | sidecar/src/git_url.rs:43-84 | parse accepts exactly the clean texts of the three forms and gives exactly what they denote |
| `GitUrl.PrintThenParseExactly` | sidecar/src/git_url.rs:88-142 | printing a remote as ssh://host:port/path and parsing returns it, for every u16 port, if and only if host and path are printable |
| `GitUrl.UserIgnored` | sidecar/src/git_url.rs:97-100 | userinfo put before the host does not change the result |
| `GitUrl.ScpEmptyPathExactly` | sidecar/src/git_url.rs:145-167 | the scp form yields an empty repository path if and only if its path is slashes only |
| `GitUrl.EmptyPathReached` | sidecar/src/git_url.rs:145-167 | git@h:/ is accepted with an empty repository path |
| `GitExec.RepoIsClean` | sidecar/src/git_ssh_proxy.rs:251-256 | a parsed repository path never starts with a slash and never ends in a quote or space |
| `GitExec.ParsedRepo` | sidecar/src/git_ssh_proxy.rs:230-262 | an accepted request names one of the two allowed commands and a clean, non-empty path |
| `GitExec.ExecExactly` | sidecar/src/git_ssh_proxy.rs:230-262 | a request is accepted if and only if it is git-upload-pack or git-receive-pack, a space, and a path wrapped in whitespace, quotes and slashes, quoted or not; it asks for that path |
| `GitExec.ExecRefusedExactly` | sidecar/src/git_ssh_proxy.rs:230-262 | every other request: refused for its encoding, for being empty, for the command before its first space, or for having no path |
| `GitExec.QuotedRequest` | sidecar/src/git_ssh_proxy.rs:230-262 | a request whose path is between quotes parses to the command and what is left inside the quotes, or to a missing path |
| `GitExec.CommandRoundTripExactly` | sidecar/src/git_ssh_proxy.rs:230-262 | the command line sent upstream parses back to the same command and path if and only if the path is not empty, starts with no slash and has no quote or space at its ends |
| `GitExec.AdmittedIsForwardedExactly` | sidecar/src/git_ssh_proxy.rs:264-268 | an admitted request asks for the configured path itself, and the upstream command is that request in normal form if and only if the path does not begin with a quote or space |
| `GitExec.ReachableExactly` | sidecar/src/git_ssh_proxy.rs:640-650 | a configured remote admits some request if and only if its path is not empty and does not end in a quote or space |
| `Decimal.PortRoundTrip` | sidecar/src/git_url.rs:119-124 | a printed number parses back as a port if and only if it fits sixteen bits |

## Left out

- The loop engine, the reconciler and the state stores: the reconciler appears as reads of a row and whole-row or narrow updates of it, in any state and with any SHA.
- Sockets, TLS, russh, hyper, Kubernetes, Postgres, git and `gh` themselves: each is an abstract step or an answer.
- Lost database answers: an insert, a `set_current_sha` or a FAILED update that commits while its answer is an error is taken as not done; a push may well arrive while its answer is lost.
- Scheduler fairness and real time: bounds are counted in steps of the named branch, clock readings are inputs. Clock readings stay within a range in which the plain i64 sums of the source cannot overflow.
- JSON and TOML: payloads are opaque texts with a reader function, configurations are maps.
- `String::from_utf8_lossy` in the log client replaces characters that a chunk boundary splits; the client model starts from text chunks.
- The half-second sleep between polls of the log stream, and its keep-alive timer: keep-alives may appear anywhere on the wire.
- After a second exec request on a channel each pump is followed by itself; the callbacks that reach the new pump are not tied to the old one. Extended-data messages of the upstream are treated as data.
- Exec requests: the replies sent for each parse error.
- EgressForward.HandlePlainHttp: address refusal, dial and TLS failures and failing upstream writes are not modelled; nor are response bytes.
- EgressForward.HandleConnect: address refusal, dial failure and timeout are not modelled; nor are the bytes to the client.
- EgressForward.HandleConnection: as the two handlers it dispatches to.
- Flag and token properties of overlapping refreshes beyond the failure record: the code does not promise them; `OauthInterleaving.StaleFlagReached` shows why.
- Failures of `git merge-base` other than unknown commits: both classifications read any failure as "not an ancestor".
- `prepare_worktree` and `cleanup_worktree` of `bare_repo.rs`, whose mutex makes them single steps like those of `GitRepo.dfy`.
- Worktree directories that exist without being registered with git, and branches that git would create from a remote-tracking one.
- Commit authors, messages and times: a commit is its parent, its tree and a stamp that stands for them, so the identity of `EngineerIdentity.PickIdentity` does not appear in it.
- Concurrent git operations interleave as whole operations, not command by command.
- The engine's own git work on a branch while its `/start` is still being served, and request validation before the insert.
- Resume, extend and the other handlers beyond their effect on a row; `sum_round_tokens`, `current_stage_source_state` and the diff truncation, which would only add easy members.
- Whether every accepted connection is tracked at shutdown: `track` is called inside the spawned connection future.
- Error message texts, the listing commands, key redaction, config migration and saving to disk beyond success or failure.
- Config merging, model precedence, header injection, path routing and IP ranges: one-branch facts that would only add easy members.
- Dashboard, TUI, help texts, preflight checks and credential discovery.
- LogStream.StreamDeliversOnce: assumes that rows are only added and that each query answers truthfully for the table at that moment.
- RecordedSha.CreatedAgreesExactly: assumes that no row is retired under its request, which `StartSaga.SaneExactlyAlong` shows to be exact for ownership, and that no other branch sits in the branch's directory, which is the exact condition of `Worktrees.WriteReachesBranchExactly`.
- OauthRefresh.LatestTokenPresented: assumes an unchanged credential file and grants that outrank it; `OauthRefresh.LatestTokenExactly` is the exact condition over runs.
- ExecPumpRuns.TeardownBounded: counts the pump's own steps; upstream messages may come in between without bound.
- DrainTracker.CounterIsLiveGuards: assumes fewer guards than the 64-bit word can count.
