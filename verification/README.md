# Verified model of the XOA deploy proxy and its package site

The repository holds two programs.

* A small Rust daemon. It fetches a VM image for a host that can only import plain HTTP, decompresses it on
  the way, allows one import at a time, and exits when it has been idle for a while (systemd starts it again).
* A publisher. Two scripts build the package site from a promotion record: one selects and checks the files,
  the other prints the security advisories as XML.

The project models both and proves what they promise. `dafny verify dfyconfig.toml` checks everything.

## The daemon

**The protocol** (`Protocol.dfy`, `ProtocolInvariants.dfy`, `ProtocolTraces.dfy`, `ProtocolLiveness.dfy`,
`ProtocolDesign.dfy`). Any number of requests run as interleaved tasks on a single-threaded runtime. A request
takes an activity token, may probe the upstream, tries the import lock, and then streams a body that owns both
the lock guard and the token. It can be cancelled or cut off wherever it is suspended. The idle task watches a
versioned counter and decides when the process may exit. One event of the transition system is a piece of work
between two suspension points, or finer: every drop is split into the single resources it releases, so the order
of fields matters. Runs are finite sequences of states and events from the initial state; schedules, for
liveness, are infinite.

The main results: an idle exit happens if and only if a full quiet window lies behind it; a held lock has one
owner, whose token is still live, in every state of every run; imports never overlap and a conflict is reported
only while another import holds the lock; nothing leaks however requests end; a fair schedule without new requests
ends the serving. What can happen is stated beside what must: which endings are open to a request, that none is ever
stuck, and that a signal always leads to an exit (`EndingsOfARequest`, `NoRequestIsStuck`, `EveryRunCanExit`).

Three decisions in the code appear as flags of the model, and each carries one of two guarantees. That the inner
body is dropped before the token is exactly what keeps a held lock covered by a token at every moment
(`LockIsCoveredIffInnerFirst`). The uncovered moment that the other order would have lies between two drops of one
object; the single-threaded runtime does not poll the idle task there, so that order alone would not make an idle
exit unquiet. That changes are looked at before the timer and are recognised by version is exactly what makes every
idle exit follow a quiet window (`ExitsAreQuietIffBiasedByVersion`). `SafeIffTheDesign` puts the two together.

**The state that is updated in place** (`AppState.dfy`, `Lifecycle.dfy`, `Handler.dfy`, `Stream.dfy`). The watch
counter, the tokens, the idle future, the tracked body, the shutdown race, the import lock, the reader, the
decoder with its 64 KiB window array, the chunk buffer and the byte counter are classes. Each method is proved
against a function of the protocol or of the pure pipeline.

**Whole requests** (`Session.dfy`, `Overlap.dfy`). On the objects, a request is tracked, its body polled any number of
times, and dropped; in the protocol, the same events extend any run. Both deliver the same bytes, and both leave the
counter one step up and one down and the lock as it was. This ties the chunks that the protocol's events carry, which
are arbitrary there, to the chunks of the pipeline. `Overlap.dfy` has any number of live bodies on the shared objects:
the counter is their number, the lock is held exactly if one of them is an image, and what is done to one leaves the
others as they were.

**The pipeline** (`Pipeline.dfy`, `PipelineAnswers.dfy`). Upstream polls, re-chunking reader, optional decoder, chunk
stream and counter as a pure machine. The decoder is any deterministic machine over input bytes. For every chunking of
the network data, every buffer size and every moment at which polling stops, what was handed out is a prefix of what the
upstream holds (or its decoding), and all of it at a clean end. `PipelineAnswers.dfy` says of every single poll when it
waits, fails, ends or hands out a chunk, and which, from what the upstream has sent alone.

## The publisher

**The advisory document** (`Escape.dfy`, `PackageName.dfy`, `Xml.dfy`, `UpdateInfo.dfy`, `AdvisoryReader.dfy`,
`XmlProcessor.dfy`, `SafeRecords.dfy`, `FullReader.dfy`). The printer is modelled string by string, with its four
successive substitutions and its backtracking pattern. An XML reader written independently of it accepts every document
and gives back every field.

That reader keeps white space as it is and takes any character. A full XML processor changes line ends and the white
space of attribute values (sections 2.11 and 3.3.3 of XML 1.0) and refuses a document with an illegal character (section
2.2). The program escapes none of these. `OriginalValuesIffSafe` says for exactly which records a reader behind such a
processor gets the original values. `CarriageReturnIsLost` gives a record with a changed title, and
`ControlCharacterLosesAll` one where a control character in one title makes all advisories unreadable.

**The site** (`Timestamps.dfy`, `Selection.dfy`, `Record.dfy`, `Publisher.dfy`, `SiteLists.dfy`, `PublishedSite.dfy`,
`SiteCounterexamples.dfy`). Retention dates and publish times are compared as strings. That this is the order in time is
proved against a calendar with leap years. The selection of the newest candidates, the digest-checked download loops and
the exclusion of superseded files from the metadata are modelled. `SiteLists.dfy` says what is on the lists and where a
file comes from, in terms of entries, assets, releases and uploads; `PublishedSite.dfy` characterises the built site.

Promises of the scripts that hold only under conditions on their input are stated with the exact condition, and with
inputs for which the run succeeds and the promise fails, for every digest that tells two files apart:

* In the stable directory every recorded digest is the digest of the published file if and only if no file name is
  recorded with two digests (`RecordedDigestsHold`, `StableDigestIsLost`).
* In the testing directory the same holds (`TestingDigestsHold`, `TestingDigestIsLost`). Its list is newest first and
  a later download overwrites an earlier one, so of several candidates with a file of one name the oldest one's file
  stays (`OldestCandidateStays`).
* The metadata lists all current packages if and only if none shares its name with a superseded file
  (`MetadataIsTheStableSet`, `StablePackageIsUnlisted`).

The comment at src/error.rs:24-26 says that a HEAD answer of 4xx or 5xx makes the probe fail. The code at
src/handler.rs:88-93 checks only for transport errors. The model follows the code, and `ProbeFailsIffUnreachable` states
when the probe fails.

The comment at src/handler.rs:78-82 lists two content types that mean gzip. The code looks for the word anywhere in
either header, and so does the model (`HeadersSayGzip`).

`Basics.dfy` and `Strings.dfy` hold shared types and string functions.

## Model

| member | source | states |
|---|---|---|
| ProtocolInvariants.InvAlways | src/lifecycle.rs:92-108 | In every state of every run, also between two drops: a held lock has exactly one owner, the owner still has its activity token, what a request owns is determined by its phase, and the counter is the number of live tokens |
| ProtocolInvariants.HoldingStep | src/handler.rs:178-193 | A request holds a guard or token after a step exactly if the step granted it, or the request had it and did not drop it |
| ProtocolInvariants.LockStep | src/stream.rs:98-108 | One step keeps the lock with a single owner that is still active, from any state that satisfies the invariant |
| ProtocolInvariants.CounterNeverUnderflows | src/lifecycle.rs:84-88 | The unsigned counter is at least one whenever a token is dropped, and it is zero exactly if no token is live |
| ProtocolInvariants.QuietMeansUnlocked | src/lifecycle.rs:62-64 | When the counter is zero the lock is free, nothing is held and every request has ended |
| ProtocolTraces.ChangeReadyIffTouched | src/lifecycle.rs:67-76 | The change notification is ready if and only if some request entered or left since the last observation, even if the value is the same again |
| ProtocolTraces.IdleReturnsIffQuietWindow | src/lifecycle.rs:64-80 | A poll of the idle task returns if and only if an earlier poll saw no activity, the timeout has passed since, and nothing entered or left in between, however late the polls come |
| ProtocolTraces.IdleExitIsSafe | src/lifecycle.rs:62-80 | An idle exit is preceded by a full timeout in which nothing was active, the lock was free and every request was completely dropped |
| ProtocolTraces.WatchIsHistory | src/lifecycle.rs:57-60 | The version counts all enters and drops, the value is their difference and equals the number of live tokens |
| ProtocolTraces.HolderAcquired | src/handler.rs:181-183 | Whoever holds the guard acquired it earlier and has held it, with the lock taken, ever since |
| ProtocolTraces.HolderKeepsLock | src/stream.rs:98-108 | From an acquisition to the matching drop the lock stays with its holder |
| ProtocolTraces.ImportsSerialise | src/state.rs:18-28 | Between any two acquisitions the first holder drops its guard: lock-holding intervals are disjoint |
| ProtocolTraces.RefusedIffHeld | src/handler.rs:181-183 | Trying the lock is answered 409 if and only if another request is holding it at that moment, and granted if and only if it is free |
| ProtocolTraces.ConflictOnlyDuringAnImport | src/handler.rs:178-183 | In every run a request that is answered 409 tried the lock earlier, strictly inside the interval in which another request held it |
| ProtocolTraces.StatusTellsKind | src/handler.rs:149-193 | In every run a 404 is answered exactly to unknown paths and a 400 exactly to bad sources, other answers are 200, 409 or 502, and only requests whose path does not tell the format are probing |
| ProtocolTraces.OthersLeaveARequestAlone | src/handler.rs:181-193 | A frame property over runs: events of other requests, such as being rejected, do not change a request's phase, holdings or delivered bytes |
| ProtocolTraces.BalanceAlways | src/lifecycle.rs:82-103 | At every moment, acquisitions and drops of each request differ by exactly what it holds |
| ProtocolTraces.NoLeaks | src/handler.rs:149-193 | Once all requests have ended, in whatever way, the lock is free, the counter is zero, each token was dropped exactly once and each guard exactly as often as it was acquired |
| ProtocolTraces.NotServingHasReason | src/main.rs:104-117 | A process that no longer serves has been signalled, or was activated and its idle task saw a full quiet window |
| ProtocolTraces.StandaloneNeedsASignal | src/main.rs:113-115 | A process that is not socket-activated serves as long as no signal arrives |
| ProtocolTraces.ExitIsClean | src/main.rs:104-117 | An exited process had a reason to stop, all requests that entered have ended, nothing is held, and everything was released exactly once |
| ProtocolLiveness.RankStep | src/lifecycle.rs:90-103 | Without new requests no step raises the rank of the requests, and each step of progress lowers it |
| ProtocolLiveness.EventuallyAllEnded | src/lifecycle.rs:90-103 | If no request enters any more and live requests keep progressing, all of them end |
| ProtocolLiveness.SecondPollReturns | src/lifecycle.rs:66-78 | When everything has ended and nothing enters, the second of two polls at least the timeout apart returns and ends the serving |
| ProtocolLiveness.ServingEventuallyStops | src/lifecycle.rs:62-80 | An activated process without new requests, whose requests finish and whose idle task keeps being polled, stops serving, and without a signal it is the idle task that stops it |
| ProtocolLiveness.AFairSchedule | src/lifecycle.rs:62-80 | The assumptions of the previous result can be met: such schedules exist |
| ProtocolLiveness.OpenToTheWorld | src/main.rs:104-117 | A process that has not exited accepts requests, signals and time at any moment; the idle task is polled exactly while an activated process serves, a signal stops the serving at once, and a draining process exits exactly when all requests have ended |
| ProtocolLiveness.EndingsOfARequest | src/lifecycle.rs:90-103 | A request can be cancelled exactly while it waits for the probe or the upstream, and an answer can end completed or disconnected at any status, by a stream error only as an image |
| ProtocolLiveness.NoRequestIsStuck | src/lifecycle.rs:90-103 | In every state that keeps the invariant of `InvAlways` a request that has not ended can make progress at once |
| ProtocolLiveness.AllCanEnd | src/lifecycle.rs:90-103 | From every such state all requests can be brought to their ends without a new one |
| ProtocolLiveness.EveryRunCanExit | src/main.rs:104-117 | Every run of a serving process, activated or not, extends over a signal and the ends of its requests to one that has exited |
| ProtocolDesign.TokenFirstIsUnsafe | src/lifecycle.rs:105-108 | With the two fields of the body in the other order, some run has a held lock that no token covers |
| ProtocolDesign.VisitIsUnsafe | src/lifecycle.rs:70-74 | If the timer is asked first, or values are compared, a request between two polls goes unnoticed and the idle task returns without a quiet window |
| ProtocolDesign.LockIsCoveredIffInnerFirst | src/lifecycle.rs:105-108 | A held lock is covered by its owner's token in every state of every run if and only if the inner body is dropped before the token |
| ProtocolDesign.ExitsAreQuietIffBiasedByVersion | src/lifecycle.rs:66-76 | Every idle exit of every run follows a quiet window if and only if changes are asked for before the timer and recognised by version |
| ProtocolDesign.SafeIffTheDesign | src/lifecycle.rs:66-108 | Of the eight combinations of drop order, branch order and change detection exactly the one in the code gives both guarantees |
| Lifecycle.Activity.Enter | src/lifecycle.rs:57-60 | Adds one to value and version, and returns a live token of this counter |
| Lifecycle.ActiveRequest.Drop | src/lifecycle.rs:84-88 | Takes one off the value, bumps the version, and consumes the token |
| Lifecycle.IdleTask.Poll | src/lifecycle.rs:64-80 | One poll of the suspended loop takes exactly the idle step of the protocol, and is ready exactly if that step returns |
| Lifecycle.ActiveBody.PollFrame | src/lifecycle.rs:114-119 | The frames of a text or an image are those of the inner body, unchanged, and what a poll allocates is new, so that polls compose |
| Lifecycle.ActiveBody.DropInner | src/lifecycle.rs:105-108 | After the first field is dropped the lock of an image is free while the token is still live and counted; an image reports the bytes it handed out |
| Lifecycle.ActiveBody.DropGuard | src/lifecycle.rs:105-108 | The token is given back only when the inner body is gone, and leaves the counter |
| Lifecycle.ActiveBody.Drop | src/lifecycle.rs:90-108 | Dropping the body frees the lock of an image and then gives the token back |
| Lifecycle.Track | src/lifecycle.rs:92-103 | For every route: the request has entered, its fresh body owns the token whatever the status and stands at the answer's text or image, and the lock is held afterwards exactly if it was before or the status is 200 |
| Lifecycle.ShutdownRace.Poll | src/main.rs:105-116 | Without activation only a signal counts and the idle task never runs; with it the idle task takes one protocol step unless a signal came first |
| AppState.ImportLock.TryLockOwned | src/state.rs:18-28 | Gives a guard if and only if the lock was free; the lock is taken afterwards |
| AppState.OwnedGuard.Drop | src/stream.rs:98-101 | Dropping the guard frees the lock |
| Handler.OnlyTheFileNameCounts | src/handler.rs:63-74 | The format depends only on the last path component, and not on letter case |
| Handler.FormatFollowsExtension | src/handler.rs:63-74 | Gzip if and only if the path ends in `.xva.gz` or `.xva.gzip`, raw if and only if it ends in `.xva`, in any letter case; open otherwise and without a path |
| Handler.EndingDecides | src/handler.rs:63-74 | Whatever comes in front of such an ending, and in whatever letter case it is written, it decides the format |
| Handler.HeadersSayGzip | src/handler.rs:95-115 | The headers mean gzip if and only if one of the two contains the word, anywhere and in any letter case |
| Handler.KindOfRoute | src/handler.rs:153-163 | Only the image path with a source that starts with `http://` or `https://` is an import, and its format is known exactly if its path has one of the three endings |
| Handler.StatusOfRoute | src/handler.rs:149-193 | Exactly when the answer is 404, 400, 409, 502 and 200, from the route, the probe, the lock and the upstream |
| Handler.HandleImageXva | src/handler.rs:149-193 | The error is what is wrong first in the order validation, probe, lock, fetch; otherwise a new stream of the detected format owns the lock; the lock is left held exactly if it was held or an image is returned |
| Handler.Dispatch | src/lib.rs:8-13 | The image path goes to the handler, every other path is not found and touches nothing |
| Handler.ProbeFailsIffUnreachable | src/handler.rs:88-93 | The probe fails if and only if it is needed and the transport fails; the status of a HEAD answer changes neither the outcome nor the format |
| Handler.HandlerPerforms | src/handler.rs:149-193 | The events of an uninterrupted handler are enabled in turn and end in the status and lock state of the handler, changing nothing else |
| Handler.HandlerIsARun | src/handler.rs:149-193 | An uninterrupted handler extends every run at whose end its request has just entered, and the longer run ends in the same status and lock state |
| ProtocolTraces.PerformedIsARun | src/main.rs:50 | Events that can be performed at the end of a run extend it to a longer run |
| Session.Serve | src/lifecycle.rs:92-128 | Tracking, polling as often as the connection asks and dropping hands out exactly the frames of the pure body; an image reports exactly the bytes in its frames modulo 2^64; the counter moves up and down once and the lock is as it was |
| Session.SessionDelivers | src/stream.rs:214-244 | The frames of a whole request carry the error text, or a prefix of the upstream's image in the detected format, all of it at a clean end |
| Session.ImageArrivesInItsFormat | src/stream.rs:220-234 | An import whose path ends in `.xva.gz` or `.xva.gzip`, or failing any known ending has gzip in its headers, delivers the decoding; any other delivers the bytes as they are |
| Session.SessionPerforms | src/lifecycle.rs:92-103 | The events of the same request are enabled in turn, deliver the bytes of the frames, end the request, and leave watch and lock as the objects have them |
| Session.SessionIsARun | src/lifecycle.rs:92-103 | A whole request extends every run of a process that has not exited, with that final state |
| Session.CancelledWhileProbing | src/handler.rs:81-93 | A handler waiting for the probe can be cancelled in any state; the request ends, gives back its token and has delivered nothing |
| Session.CancelledWhileFetching | src/handler.rs:188-193 | A handler that holds the lock and waits for the upstream can be cancelled; the lock is free again, then the token is given back, and nothing else has changed |
| Overlap.Arrive | src/lifecycle.rs:92-103 | With any bodies alive, a request gets the status that an image among them decides; the counter stays the number of bodies, the lock is held exactly if one is an image, and the others are as before |
| Overlap.Poll | src/lifecycle.rs:114-119 | Polling one of several bodies keeps this and does not disturb the others |
| Overlap.Leave | src/lifecycle.rs:90-108 | Dropping one of several bodies keeps this, never underflows the counter, frees the lock only if it was the image, and reports its bytes |
| Session.EmitsDeliver | src/stream.rs:113-117 | The protocol's events for the chunks of the pipeline add exactly the delivered bytes to the request |
| Pipeline.ReadSomeLaw | src/stream.rs:224-232 | A read takes a non-empty prefix of what is ahead, at most as much as fits; empty means a clean end, failure means an upstream failure |
| Pipeline.DecodeChunks | src/stream.rs:223-228 | Decoding a concatenation is decoding its parts one after the other |
| Pipeline.GatherLaw | src/stream.rs:223-228 | A read through the decoder delivers the next piece of the decoded output whatever the network chunks; empty means the decoder's own end, failure means it cannot be reached |
| Pipeline.PollNextLaw | src/stream.rs:236-244 | A poll hands out the next non-empty piece and counts it, or waits, ends or fails for exactly the reasons the upstream gives |
| Pipeline.CounterAgrees | src/stream.rs:236-252 | After any polls the counter has grown by the total length of the chunks handed out, modulo 2^64; errors are not counted |
| Pipeline.NothingAfterTheEnd | src/stream.rs:113-117 | After an error or the end only the end is reported |
| Pipeline.DeliveryIsFaithful | src/stream.rs:214-244 | Whenever polling stops, the chunks are a prefix of the upstream's content or its decoding, and all of it at a clean end |
| Pipeline.EnoughPolls | src/stream.rs:214-244 | Enough polls close the stream: it has failed if and only if the upstream did or the decoder could not finish, and otherwise everything was delivered |
| Pipeline.RawIsTransparent | src/stream.rs:230-233 | A raw image arrives byte for byte, for every chunking and buffer size |
| Pipeline.GzipIgnoresChunking | src/stream.rs:223-228 | Upstreams with the same bytes deliver prefixes of the same one-shot decoding however the network cut them, and all of it if the decoder finishes |
| PipelineAnswers.FillBufFollowsItems | src/stream.rs:215-218 | The reader answers as the first item that is not an empty chunk: waits, fails with that code, or hands over that chunk, and exactly the items behind it are left |
| PipelineAnswers.RawPollFollowsItems | src/stream.rs:113-117 | A raw poll waits if and only if nothing has arrived, fails with a code if and only if the upstream fails with it next, ends if and only if nothing is left, and otherwise hands out as much of the next chunk as fits |
| PipelineAnswers.GzipPollWaitsIffStalled | src/stream.rs:220-228 | A decoded poll waits if and only if what has arrived decodes to no further output and does not end the decoder; exactly the items behind that are left |
| PipelineAnswers.GatherFollowsArrivals | src/stream.rs:223-228 | The answer of a read through the decoder is a function of the decoding of what has arrived and of what comes next, not of the chunks: as much output as fits, the end, a wait, or the reason of the failure |
| PipelineAnswers.GzipPollFollowsArrivals | src/stream.rs:113-117 | A decoded poll passes exactly that answer on |
| PipelineAnswers.BufferIsUsedUp | src/stream.rs:228-232 | A poll reads into what earlier chunks left of the read buffer, and into a new one only if they left nothing |
| PipelineAnswers.DecodeByAnswers | src/stream.rs:223-228 | The one-shot decoding keeps the output of every answer of the codec, the last output too, and ignores what follows the end or an error |
| Stream.StreamReader.FillBuf | src/stream.rs:215-218 | The polling loop over upstream chunks computes the pure step |
| Stream.StreamReader.ReadInto | src/stream.rs:226-232 | Copies exactly the bytes of the pure read into the given part of the buffer and touches nothing else |
| Stream.GzipDecoder.ReadInto | src/stream.rs:224-228 | The decoding loop over the 64 KiB window array computes the pure read and leaves the rest of the buffer alone |
| Stream.ByteCounter.FetchAdd | src/stream.rs:239 | Adds modulo 2^64 |
| Stream.CountedStream.PollNext | src/stream.rs:236-244 | One poll over buffer, source and shared counter is one step of the pure stream |
| Stream.GuardedStream.PollNext | src/stream.rs:113-117 | Passes the inner stream's answer on; the lock stays held |
| Stream.GuardedStream.Drop | src/stream.rs:120-132 | Reports the bytes handed out and frees the lock |
| Stream.FetchXvaStream | src/stream.rs:181-253 | A refused fetch drops the guard; otherwise the stream owns it and starts with the pipeline of the format |
| Escape.FusedIffAmpersandFirst | pages/updateinfo.jq:2 | Among all orders of the four substitutions, exactly those that begin with the ampersand equal the single pass on all strings |
| Escape.EscIsFused | pages/updateinfo.jq:2 | The four successive substitutions replace every character once |
| Escape.EscHasNoMarkup | pages/updateinfo.jq:2 | An escaped string has no angle bracket and no double quote |
| Escape.EscAppend | pages/updateinfo.jq:12 | Escaping parts and escaping the whole is the same |
| Escape.UnescapeEsc | pages/updateinfo.jq:2 | A reader's unescaping restores every string |
| PackageName.BacktrackIsScan | pages/updateinfo.jq:4 | For every string the greedy backtracking search and a scan from the right give the same groups, and some if and only if the pattern matches |
| PackageName.UnambiguousWithoutNewline | pages/updateinfo.jq:4 | A string without newline has at most one match |
| PackageName.MatchIsUnique | pages/updateinfo.jq:4 | Matches that reach the end of the string agree on every cut |
| PackageName.PrintThenSplit | pages/updateinfo.jq:3-4 | Splitting undoes printing, for names with dashes and releases with dots |
| PackageName.SplitThenPrint | pages/updateinfo.jq:3-4 | What splitting returns prints as the string, and it returns something if and only if the string is the print of well-formed parts |
| Xml.TokenizePrinted | pages/updateinfo.jq:5-21 | The tokenizer gives back every printed token, attribute and text |
| Xml.ParseFlattened | pages/updateinfo.jq:5-21 | Parsing the tokens of properly nested nodes gives back the nodes |
| Xml.ReadPrinted | pages/updateinfo.jq:5-21 | Reading undoes printing for all well-formed nodes, whatever characters the values contain |
| UpdateInfo.DocumentIsPrintedTree | pages/updateinfo.jq:5-21 | The concatenated strings of the program are the text of a tree: tags nest properly and every value is escaped in its place |
| AdvisoryReader.DocumentRoundTrip | pages/updateinfo.jq:5-21 | For every record, reading the document returns exactly the advisories of its stable entries, in order, with all their fields |
| AdvisoryReader.ExactlyTheStableAdvisories | pages/updateinfo.jq:6 | The advisories read back are, in order and number, those of the entries with status stable that carry one; a record without such an entry reads as an empty list |
| XmlProcessor.LineEndsOfTokens | pages/updateinfo.jq:2 | Unifying line ends in the text is unifying them in each value: it never disturbs the markup |
| XmlProcessor.TokensSurvive | pages/updateinfo.jq:2 | White space handling leaves a token sequence alone if and only if attribute values have no line break or tab and texts no carriage return |
| XmlProcessor.LegalTokens | pages/updateinfo.jq:2 | A printed document has legal characters only if and only if every attribute value and text in it has: escaping neither removes nor adds an illegal one |
| SafeRecords.RefusedIffIllegal | pages/updateinfo.jq:5-21 | A full XML processor refuses the whole document if and only if some field shown, of any entry, has an illegal character |
| SafeRecords.FullProcessorSeesTheDocument | pages/updateinfo.jq:5-21 | A full XML processor reports the document's own tokens if and only if, in the entries shown, all fields have legal characters, fields printed into attributes have no line break or tab, and fields printed as text have no carriage return |
| FullReader.OriginalValuesIffSafe | pages/updateinfo.jq:5-21 | A reader behind a full XML processor gets exactly the original advisories if and only if, in the entries shown, all fields have legal characters, fields printed into attributes have no line break or tab, and fields printed as text have no carriage return |
| FullReader.IllegalCharacterLosesAll | pages/updateinfo.jq:5-21 | An illegal character in one field shown, of whatever entry, leaves such a reader without any advisory |
| FullReader.ControlCharacterLosesAll | pages/updateinfo.jq:9 | A concrete record with a control character in one title, of which no advisory is read |
| FullReader.CarriageReturnIsLost | pages/updateinfo.jq:9 | A concrete record whose title such a reader does not get |
| Timestamps.SecondsFollowTheCalendar | pages/build-site.sh:12 | The count of seconds starts at the epoch and goes on by one with every second of the calendar, over month ends and leap days |
| Timestamps.StringOrderIsTimeOrder | pages/build-site.sh:12 | On fixed-width UTC timestamps (section 5.1 of RFC 3339) string order is the order of seconds since the epoch, and equal strings are equal times |
| Timestamps.RetainedUntilThen | pages/build-site.sh:32 | A file is retained if and only if it has a retention date and that date is later than now |
| Timestamps.ExpiryIsFinal | pages/build-site.sh:39 | What has expired stays expired, for any text in the record |
| Timestamps.IssuedDateOfTimestamp | pages/updateinfo.jq:11 | The issued date is the timestamp's date and time with a space between them |
| Timestamps.IssuedDateOfText | pages/updateinfo.jq:11 | For any text, the first T and no other becomes a space, and a Z at the end or before a final newline is gone |
| Selection.WindowTakesTheNewest | pages/build-site.sh:48-51 | The window has as many releases as asked for or available (a negative number asks for all but so many); taken and left together are exactly the pre-releases that are no drafts and have no withdrawn tag, each as often as listed; the window is newest first and none left out is newer than one taken |
| Selection.WindowIsNewestInTime | pages/build-site.sh:48-51 | With fixed-width publish times the window is newest first, and newer than what it leaves out, counted in seconds |
| Selection.TiesAreReversed | pages/build-site.sh:48-51 | Of candidates published at the same time the one listed last comes first: the sort is stable and then reversed |
| Selection.WindowIgnoresInputOrder | pages/build-site.sh:48-51 | With distinct publish times the window does not depend on the order of the release list |
| Publisher.Directory.Fetch | pages/build-site.sh:20-28 | Succeeds and stores the file exactly if there is a URL, the download works and the digest is the recorded one |
| Publisher.Directory.FetchList | pages/build-site.sh:35 | The loop over a list stores all files, or ends with the first that cannot be had |
| Publisher.FetchTesting | pages/build-site.sh:52-55 | Succeeds exactly if every testing file has a digest and all can be fetched |
| Publisher.Excludes | pages/build-site.sh:62 | Collects the names of the superseded files in order |
| Publisher.BuildSite | pages/build-site.sh:15-67 | The imperative run yields the specified site together with the advisory document, or fails exactly when the specification does |
| SiteLists.ListedAssets | pages/build-site.sh:32-40 | The stable list holds all assets of the stable and of the retained retired entries, the superseded list all those of the retained superseded ones, and neither anything else |
| SiteLists.ListsFollowTheRecord | pages/build-site.sh:32-40 | Each further entry of the record adds its assets in order to the end of its list and changes nothing else |
| SiteLists.TestedUploads | pages/build-site.sh:48-51 | The testing list holds all package uploads of the chosen releases, each with its tag, name and plain digest, and nothing else |
| SiteLists.TestingListFollowsTheWindow | pages/build-site.sh:48-51 | The testing list is in the order of the chosen releases and of their uploads |
| SiteLists.PlainDigests | pages/build-site.sh:51 | A digest loses its prefix if it has it; a missing one is empty |
| SiteLists.UrlsAre | pages/build-site.sh:22 | The URLs found for a file are exactly those of the uploads with its name in the releases with its tag |
| SiteLists.TheOnlyUploadIsFetched | pages/build-site.sh:20-28 | A file offered by exactly one upload can be had if and only if that upload has a URL, the download works and the digest is the recorded one |
| SiteLists.UrlsAreLines | pages/build-site.sh:22-24 | Several URLs found for one file are taken together, in order, as one string with each on a line of its own |
| SiteLists.WhatNobodyOffersIsMissing | pages/build-site.sh:23 | A file that no release offers cannot be had |
| PublishedSite.AnyMissingPartFailsTheRun | pages/build-site.sh:2-3 | A build succeeds if and only if the record lists something to serve, every listed file can be had with the recorded digest, and no testing file is without one |
| PublishedSite.StableDirectory | pages/build-site.sh:30-44 | The stable directory holds exactly the files of the two lists, each with the digest of the last entry for its name |
| PublishedSite.RecordedDigestsHold | pages/build-site.sh:19-28 | Every recorded digest is that of the published file if and only if no name is recorded with two digests |
| PublishedSite.TestingDirectory | pages/build-site.sh:46-55 | The testing directory and its metadata hold exactly the packages of the chosen candidates, none of a withdrawn release, each with the digest of the last entry for its name |
| PublishedSite.TestingDigestsHold | pages/build-site.sh:2-3 | Every digest on the testing list is that of the published file if and only if no name is on it with two digests |
| PublishedSite.OldestCandidateStays | pages/build-site.sh:48-55 | Of several chosen candidates with a package of one name, the file of the one published first stays |
| SiteCounterexamples.StableDigestIsLost | pages/build-site.sh:32-35 | Two stable entries with one file name: for any two files with different digests and any times in order, the run succeeds and a recorded digest is not that of the file |
| SiteCounterexamples.TestingDigestIsLost | pages/build-site.sh:48-55 | Two candidates with one file name: for any two files with different digests and any times in order, the run succeeds and a digest on the testing list is not that of the file |
| SiteCounterexamples.StablePackageIsUnlisted | pages/build-site.sh:37-44 | A retained superseded file with the name of a stable one: for any two files with different digests and any times in order, the run succeeds and the stable package is not listed |
| PublishedSite.MetadataIsTheStableSet | pages/build-site.sh:37-38 | Superseded files are on disk and unlisted; the metadata lists exactly the stable and retained retired packages if and only if no superseded file shares a name with one |
| PublishedSite.ListedIffCurrent | pages/build-site.sh:37-64 | The stable metadata lists a name if and only if it ends in `.rpm`, a stable or retained retired entry has an asset of that name, and no retained superseded entry has one |
| PublishedSite.StableItemsComeFromLiveEntries | pages/build-site.sh:32-40 | A file is fetched for the stable directory if and only if it is an asset, any of them, of an entry that is stable, or retired or superseded with a retention date still to come |
| PublishedSite.StableFilesComeFromLiveEntries | pages/build-site.sh:30-44 | A name is in the stable directory if and only if an asset of a live entry has it, and a withdrawn entry is never live |
| PublishedSite.LaterBuildSucceeds | pages/build-site.sh:32-40 | After a successful build of a record, a later one succeeds if and only if something is left for the stable list |
| PublishedSite.TimeOnlyRemoves | pages/build-site.sh:30-44 | With the record unchanged a later build only removes stable files, and the testing channel stays |

## Left out

Of the daemon:

- Sockets, TLS, the HTTP client and server libraries, logging, descriptor 3, environment variables. What the network answers is a parameter.
- Graceful shutdown is an assumption: the process exits only when all requests that entered have ended. A request may still enter while draining, because an accepted connection may deliver one.
- A connection whose request has not been read does not count as active, as in the code.
- DEFLATE and the gzip container. The decoder is an arbitrary deterministic byte machine that may stop before the end of its input, so nothing is claimed about several gzip members (section 2.2 of RFC 1952). That a truncated input is an error, and that a failing read drops what it had collected, is how the library is taken to behave.
- ProtocolTraces.WatchIsHistory: counts without bound; the wrap of the version number is not modelled, and the counter is bounded by the live tokens. Time has no bound either.
- The cooperative budget and the timer granularity of the runtime, which only delay polls.
- Lifecycle.ActiveBody.PollFrame: the size hint and the end-of-stream hint that the body also passes on are not modelled.
- Handler.Dispatch: a GET of the image path or any other path; the answers that the framework gives itself, to other methods on the image path and to a query it cannot parse, are not modelled, nor is the wording of error texts.
- Session.Serve: one request with nothing else in between. On the objects only bodies overlap (`Overlap.dfy`); handlers that are suspended in the middle are the business of the protocol.
- Handler.HandlerIsARun: covers handlers that run to their answer; cancelled ones are covered by the protocol, where every suspension point can be cancelled.
- Handler.OnlyTheFileNameCounts: works on the path that the URL parser returns; URL parsing is not modelled, and lower-casing is that of ASCII, of which such paths consist.
- The choice between the verifying and the other HTTP client, the failure of the response builder on constant headers, the printing and parsing of format names, and the conversion of byte counts for log lines.

Of the publisher:

- AdvisoryReader.DocumentRoundTrip: fields are strings or absent; other JSON values in their place, and errors of jq on them, are not modelled. Its reader takes any character; what a full processor refuses is the subject of the lemmas in `FullReader.dfy`.
- Publisher.BuildSite: list files are lists of triples, so names with white space, which the shell would split, are not modelled; neither are messages, retries and the final newline of jq's output.
- The first hundred releases of the API are the input. Several URLs for one asset are joined by a newline, as in the script, and then downloaded as one URL.
- The index tool lists the files that end in `.rpm` and excludes by exact names, not by patterns. Its database formats and options are not modelled, nor is the step that attaches the advisories to the metadata, nor the file with the generation number.
- Packaging, units, continuous integration, the HTML pages and the signing keys.
