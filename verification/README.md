# A verified model of localapp

localapp is a local daemon that gives every registered development server a stable address: it
resolves names under a configured domain, issues certificates for them, forwards requests to the
registered service, and keeps the services' recent output for readers who follow it. This project
models the logic of that daemon in Dafny and proves what it promises.

`dafny verify dfyconfig.toml` checks everything.

## What is modelled

**The log pipeline.** An application's output goes through a bounded queue that drops its oldest
bytes and marks the stream where something was lost (`Forwarder`, `Markers`), arrives at the daemon
in batches that may fail, and is appended to a retained window with absolute offsets, trimmed by
lines and by bytes (`Lines`, `Retention`), in a store that evicts the least recently used service
(`LogStore`). Readers woken by one-slot channels follow it as Server-Sent Events and resume after a
disconnect (`Follow`, `Sse`); `Serving` is the handler of one stream as an object, whose methods are
steps of `Follow`, and `Wire` takes the events of `Follow` through the byte stream of `Sse`,
which `EventStream` parses as the standard says.
`Pipeline` puts the two ends together. Forwarder, readers and stream admission (`Admission`) are
state machines whose steps are the atomic steps of the program, and the theorems hold after any
sequence of steps. The two commands that show the end of a log are `Tails`.

**The registry.** `Registry` is the two-level list of apps and services as a value and the finite
map it stands for (`Keyed`); `RegistryStore` is the store as the program holds it, with slices of
services in arrays, edited on a private copy, persisted with every fault the save can meet, and
published only after that.

**Names, routes and certificates.** `Services` validates and normalizes names and paths and derives
addresses; `Routing` resolves hosts and paths, on the separated strings of `Text`; `Hosts` compares
what the proxy, the certificate issuer and the DNS server recognise; `AdvertisedUrls` shows that
advertised addresses lead back; `PathEncoding` takes mounts off encoded paths; `LeafCache` issues and
renews certificates.

Sizes (1000 lines, 256 KiB, 64 services, 32 streams) are parameters, at least 1. uint64 counters are
natural numbers; only `LogStore.Store.Append` needs the clock to be below its maximum, which takes
2^64 appends to reach. Log text, paths and event streams are byte strings (a char is a byte), host
and app names are strings of characters. The clock, new keys, file faults, the network and the
payload codec are parameters or free choices of a step.

## Where the code does less than its text says

Each of these is proved with the input or the run that shows it, and with the condition under which
the code does keep the promise.

- A host with a dot in front, such as `.app.localapp`, is routed to the app's default service, but no
  certificate is issued for it (`Routing.LeadingDotRoutes`). All other routable hosts of at most 253
  characters are certified (`Routing.RoutableIsCertifiable`).
- The DNS server also answers names such as `a\.localapp`, a single label that is not under the domain
  (`Hosts.EscapedDotIsAnswered`); every other name it answers is (`Hosts.DnsMatchIsConstraint`).
- An advertised address with a mount, if it is sent as it stands, leads back to its service if and only
  if the mount contains no percent sign and no ASCII control character and no earlier service of the
  app has the same mount (`AdvertisedUrls.EncodedMountUrlWorks`). Some clients do not send every
  address as it stands: they resolve `/..` and turn backslashes into slashes, both of which a mount may
  contain.
- After stripping a mount, the raw path still stands for the path if and only if net/url had dropped
  it, or the mount contains no percent sign, or the mount is not a prefix of the raw path
  (`PathEncoding.StrippedRequestAgrees`; a request that fails is `PathEncoding.PercentMountDisagrees`).
- The comment on ReadFrom promises a reset after a restart. A client that comes back with an offset
  inside the new window, its end included, gets an append instead, and so does a reader woken with one
  before the window's end. This is right if and only if the client's text is what precedes the offset
  in the new lifetime (`Follow.ReadKeepsClientCorrect`; runs in which it is not are
  `Follow.RestartCanMixLifetimes` and `Follow.EvictionCanMixLifetimes`). All clients are right
  throughout a run if and only if it has no other such read (`Follow.ReaderFidelityAcrossLifetimes`).
- How output is split into appends matters once the byte cap fires: at the program's sizes the same
  bytes in one append and in two leave different windows (`Retention.ChunkingMattersAtSize`). It never
  matters if and only if at most two lines or one byte are kept
  (`Retention.ChunkingIndependentSizes`), and not before the cap fires
  (`Retention.ChunkingIndependence`).
- A request that timed out may be carried out behind its successor (`Forwarder.LateArrivalReorders`).
- The omitted-output marker is also sent when nothing is missing at the daemon. Three steps cause
  this, and no other: a write of exactly the queue's size into an empty queue, and a failure of a
  request that had arrived, when nothing is missing before the queue; and the late arrival of a failed
  request that brings all that was missing before the flagged queue or a marked batch
  (`Markers.HonestUnlessNeedless`, with a run for each in `Markers.FullWriteGivesMarker`,
  `Markers.LostReplyGivesMarker` and `Markers.LateArrivalGivesMarker`). Flag and markers are truthful
  throughout a run if and only if it has none of them (`Markers.MarkersTellTheTruth`). "Missing" can
  be read as some byte anywhere before, or as the very byte before; the statements hold for both. What
  was missing when a marker arrived may still arrive late afterwards.
- logcat drops a leading empty line when asked for all lines; this is the only difference between the
  two tail commands (`Tails.TailsAgree`).
- For a host that reads as an IPv4 address (possible under a domain such as `4`) a certificate is
  issued on every request (`LeafCache.AddressesAreNeverCached`).
- A log stream may be refused although fewer than the maximum are open, whatever the maximum
  (`Admission.RefusedWithFreePlace`); it is admitted exactly if fewer than the maximum are counted when
  it increments, whatever others do before it tests (`Admission.AdmittedIfRoom`).
- NormalizeName's comment speaks of characters outside `[a-z0-9-]`; the code also collapses runs of
  dashes (`Services.NormalNameIsWords`).

## Model

| member | source | states |
|---|---|---|
| `Lines.TailUnique` | internal/logstream/store.go:31-42 | at most one line boundary leaves exactly min(n, lines) lines behind it, so "the last n lines" is well defined |
| `Lines.DropNextLine` | internal/logstream/store.go:40-42 | while more than one line is left the newline search of the trim loop succeeds, and one round drops exactly one line |
| `Lines.TailOfTail` | internal/logstream/store.go:34-42 | keeping the last n lines, appending and keeping the last n lines again equals keeping the last n lines of everything |
| `Retention.LineCut` | internal/logstream/store.go:34-42 | the counting loop of trim finds where the last n lines begin |
| `Retention.Trim` | internal/logstream/store.go:34-55 | trim drops TrimCut bytes and advances start by as many |
| `Retention.ByteCutIsLeast` | internal/logstream/store.go:43-48 | when the byte cap fires, the cut is the least line boundary behind length - MaxBytes and before the end, or else exactly MaxBytes are kept and hold no newline before the last byte |
| `Retention.TrimBounds` | internal/logstream/store.go:31-55 | a trimmed text has at most MaxLines lines and MaxBytes bytes, begins at a line boundary or is one line of exactly MaxBytes, and the byte cut never moves back behind the line cut |
| `Retention.TrimIdempotent` | internal/logstream/store.go:34-55 | a second trim changes nothing |
| `Retention.AppendKeepsWindow` | internal/logstream/store.go:89-90 | after every Append the buffer is a bounded suffix of everything appended, beginning right after a newline of it (or at 0) unless it is one line of exactly MaxBytes |
| `Retention.ChunkingIndependence` | internal/logstream/store.go:34-55 | while the cap never fires, the window after any split into appends is the last MaxLines lines of the whole output |
| `Retention.ChunkingMattersUnderCap` | internal/logstream/store.go:43-48 | a family of outputs for which two appends and one append of the same bytes leave different windows |
| `Retention.ChunkingMattersAtSize` | internal/logstream/store.go:10-15 | such outputs for every MaxLines of at least 3 and MaxBytes of at least 2, the program's 1000 and 256 KiB among them |
| `Retention.ChunkingIndependentSizes` | internal/logstream/store.go:34-55 | for all outputs and all splits the window is one trim of everything, if and only if MaxLines is at most 2 or MaxBytes is 1 |
| `LogStore.ReadIsWindowOrDelta` | internal/logstream/store.go:108-125 | reading inside the window yields exactly the bytes appended since the offset, reading outside it the whole window with reset; next is the end of the history |
| `LogStore.AbsentReadsAsEmpty` | internal/logstream/store.go:117-120 | a service without an entry reads like one with an empty entry that has captured nothing |
| `LogStore.AppendDeterministic` | internal/logstream/store.go:73-86 | whatever order the map is iterated in, an Append has one outcome |
| `LogStore.AppendStepAt` | internal/logstream/store.go:65-92 | an Append extends or creates its own entry and leaves every surviving other entry as it was |
| `LogStore.MostRecentUnique` | internal/logstream/store.go:17-18 | "the n most recently used keys" is one set |
| `LogStore.UseEvicting` | internal/logstream/store.go:74-83 | replacing the least recently used key by a new one keeps the n most recently used keys |
| `LogStore.LeastRecentlyUsedAreEvicted` | internal/logstream/store.go:65-92 | after any sequence of Appends the stored services are exactly the MaxServices most recently used ones, with distinct stamps |
| `LogStore.StoredWindows` | internal/logstream/store.go:65-92 | in every reachable store each entry is the window of exactly what was appended to it since it was created |
| `LogStore.NoEvictionWithinCapacity` | internal/logstream/store.go:73-86 | while at most MaxServices services have produced output none is evicted and every history is complete |
| `LogStore.Store.FindOldest` | internal/logstream/store.go:75-81 | the eviction loop finds an entry with the least stamp, in any iteration order |
| `LogStore.Store.Append` | internal/logstream/store.go:65-99 | performs one Append step and leaves a pending signal with every subscriber of the service, changing no other channel |
| `LogStore.Store.ReadFrom` | internal/logstream/store.go:114-125 | returns what ReadAt says of the service's entry |
| `LogStore.Store.Subscribe` | internal/logstream/store.go:130-141 | adds a new empty wake channel to the service's subscribers and to no other's |
| `LogStore.Store.Cancel` | internal/logstream/store.go:142-149 | removes the channel, and the service's set with its last channel |
| `Follow.ReadContinues` | internal/logstream/sse.go:59-68 | whatever ReadFrom yields at a client's last id continues or replaces its text correctly |
| `Follow.StepKeepsInvariant` | internal/logstream/sse.go:49-94 | every step of the log, a handler, the network or a client keeps all readers faithful, synchronised and not behind |
| `Follow.ReaderFidelity` | internal/logstream/sse.go:49-94 | in every run with appends, evictions, wake-ups, disconnects and Last-Event-ID reconnects, a client not given two lifetimes holds exactly one lifetime's bytes from a point no later than the window's start up to its last id |
| `Follow.ReaderFidelityAcrossLifetimes` | internal/logstream/sse.go:49-94 | in a run with evictions, restarts and reconnects, every client holds exactly one lifetime's bytes up to its last id throughout, events in flight included, if and only if no read of the run appends to text that does not precede it |
| `Follow.ReaderFidelityWithoutEviction` | internal/logstream/sse.go:49-94 | a client that first connects in some lifetime of the entry holds, until the entry is evicted, exactly H[from..id] of that lifetime's output H, with from within what the window dropped |
| `Follow.NoLostWakeUp` | internal/logstream/sse.go:50-93 | a reader parked in select with an empty wake slot has read everything appended; if the service is evicted and not recreated, everything of its last lifetime |
| `Follow.QuiescentClientIsCurrent` | internal/logstream/sse.go:65-94 | such a client, parked with nothing pending and nothing in flight, shows a suffix of that output that includes the whole window |
| `Follow.SignalIsServed` | internal/logstream/sse.go:84-92 | a pending signal can be served in three steps of the handler, after which it is parked with everything read |
| `Follow.ConnectionIsServed` | internal/logstream/sse.go:49-68 | three steps after a connection the handler is parked with everything read |
| `Follow.FreshClientIsReset` | internal/logstream/sse.go:57-63 | the first event of a client without an id is a reset with the whole window |
| `Follow.SendGoneEnds` | internal/logstream/sse.go:74-78 | when the mapping is gone the parked handler sends one more event, a "gone" with its offset, and has ended |
| `Follow.GoneEndsStream` | internal/logstream/sse.go:74-78 | in every run a "gone" in flight is the last event of its stream, whose handler has ended |
| `Follow.NothingAfterTheEnd` | internal/logstream/sse.go:49-94 | in every run nothing is added to what is in flight after a handler has ended, until the client connects again |
| `Follow.ReadKeepsClientCorrect` | internal/logstream/store.go:108-124 | after a read the client's text is a piece of the current lifetime reaching back to the window and up to its id, if and only if the read is not an append to text other than what precedes the offset |
| `Follow.MixingReadIsStale` | internal/logstream/store.go:108-124 | such an append only goes to a client whose offset is of an ended lifetime |
| `Follow.RestartCanMixLifetimes` | internal/logstream/sse.go:49-68 | a run in which a client that reconnects with the id of one lifetime is given the end of another; its text is not its lifetime's unless the new output begins with the old, and no lifetime's if the new output is longer too |
| `Follow.EvictionCanMixLifetimes` | internal/logstream/store.go:73-86 | a run in which a parked reader's client ends up with the beginning of one lifetime and the end of another, and holds text of neither unless the new output begins with the old |
| `Follow.StoreRunIsLogRun` | internal/logstream/store.go:65-99 | to the followers of one service, any run of Appends to any services is a run of appends and evictions with the same entry, lifetime and chunks, whatever the readers do in between |
| `Serving.Handler.constructor` | internal/logstream/sse.go:49-51 | subscribing and taking over Last-Event-ID is the Connect step |
| `Serving.Handler.FirstRead` | internal/logstream/sse.go:59-65 | the read before the loop yields the event of the FirstRead step |
| `Serving.Handler.TakeWake` | internal/logstream/sse.go:84-84 | receiving from the channel is the TakeWake step |
| `Serving.Handler.ReadAgain` | internal/logstream/sse.go:85-91 | the read in the loop yields the event of the ReadAgain step, or nothing when that step sends nothing |
| `Serving.Handler.Sent` | internal/logstream/sse.go:68-68 | going on from the id of the written event is the Send step |
| `Serving.Handler.Finish` | internal/logstream/sse.go:51-51 | the deferred cancel removes the handler's channel and no other |
| `Serving.Handler.SendGone` | internal/logstream/sse.go:74-78 | the exit yields the "gone" message with the offset and removes the handler's channel |
| `Serving.Handler.Append` | internal/logstream/store.go:65-99 | an Append to the handler's service is the Append step and leaves a signal in its channel; one to another service is an eviction or nothing, and leaves the channel alone |
| `Forwarder.QueuedIsTail` | cmd/localapp/log_forward.go:94-109 | after a Write the queue is the last min(MaxBytes, all) queued bytes of the output, flagged when something was dropped or the write was of MaxBytes |
| `Markers.HonestUnlessNeedless` | cmd/localapp/log_forward.go:52-56 | a step makes the flag or a marker tell of missing output where none is missing if and only if it is a Write of MaxBytes into an empty queue or a failure of a request that had arrived, with nothing missing before, or a late arrival of all that was missing |
| `Markers.MarkersTellTheTruth` | cmd/localapp/log_forward.go:44-56 | flag and markers are truthful throughout a run if and only if it has no such step |
| `Markers.MarkerMeansGap` | cmd/localapp/log_forward.go:44-46 | in every run a batch that arrives without a marker begins where one that arrived before ended; in a run without such a step one that arrives with a marker stands behind output that has not arrived |
| `Markers.GapShowsNotice` | cmd/localapp/log_forward.go:44-46 | in every run, late arrivals included, the text that has arrived shows the notice, on a line of its own whatever is before it, in front of every batch that does not begin where one before it ended |
| `Markers.SuccessiveGapShowsNotice` | cmd/localapp/log_forward.go:44-46 | so it does between two successive received segments that leave a gap |
| `Markers.LostReplyGivesMarker` | cmd/localapp/log_forward.go:50-56 | a run that delivers a marker although everything arrived: the reply was lost |
| `Markers.LateArrivalGivesMarker` | cmd/localapp/log_forward.go:50-56 | another: the request arrived after the program had given it up |
| `Markers.FullWriteGivesMarker` | cmd/localapp/log_forward.go:98-100 | another: a write filled the empty queue exactly |
| `Forwarder.StepKeepsInvariant` | cmd/localapp/log_forward.go:37-67 | every step keeps the queue, the delivered segments, at-most-once delivery, gaplessness without markers and the alternation of warnings |
| `Forwarder.WarningsTellChanges` | cmd/localapp/log_forward.go:53-66 | in every run there is exactly one warning for each request that ends unlike the one before it, in order and of the right kind, so that the kinds alternate |
| `Forwarder.ForwarderConservation` | cmd/localapp/log_forward.go:37-67 | in every run the delivered batches, markers removed, are disjoint increasing segments of the output, every gap is marked, and the queue is the last part of the output behind them |
| `Forwarder.EveryByteAtMostOnce` | cmd/localapp/log_forward.go:37-67 | no byte arrives twice, even when failed requests arrive late |
| `Forwarder.NoLateArrivals` | cmd/localapp/log_forward.go:50-61 | without late arrivals the daemon sees exactly the batches delivered in order |
| `Forwarder.NoMarkerNoLoss` | cmd/localapp/log_forward.go:44-48 | as long as no marker has arrived, what arrived is exactly the output up to the last batch, whatever failed or was late |
| `Forwarder.FinalSendDrains` | cmd/localapp/log_forward.go:68-76 | a successful send with none under way delivers everything written before it; left in the queue is what is written while it lasts, complete unless it fills the queue |
| `Forwarder.LateArrivalReorders` | cmd/localapp/log_forward.go:50-61 | a batch whose request failed can arrive behind its successor |
| `Forwarder.LogForwarder.Write` | cmd/localapp/log_forward.go:94-109 | performs the Write step on the queue fields and reports all bytes as written |
| `Forwarder.LogForwarder.TakeBatch` | cmd/localapp/log_forward.go:38-49 | takes the batch the Take step takes, or nothing when there is nothing to send; after a loss its text is the notice on a line of its own, followed by the queued bytes |
| `Forwarder.LogForwarder.Returned` | cmd/localapp/log_forward.go:52-66 | performs the outcome step and gives the warning it calls for |
| `Pipeline.ClientHoldsArrivals` | internal/logstream/store.go:89-90 | in every run of writer, arrivals and readers, a client holds exactly the bytes that arrived, from some point up to its last id |
| `Pipeline.ClientShowsOutput` | cmd/localapp/log_forward.go:44-48 | unless a marker has arrived, a client shows consecutive bytes of the application's own output |
| `Pipeline.ClientShowsMarkedOutput` | cmd/localapp/log_forward.go:44-56 | with markers a client shows a piece of batches that are segments of the output sharing no byte; without late arrivals they increase and every gap is marked |
| `Pipeline.WriterProjection` | cmd/localapp/log_forward.go:37-67 | in a system run the writer behaves as in a run of its own |
| `Decimal.IdRoundTrip` | internal/logstream/sse.go:55-55 | printing and parsing a uint64 event id gives it back |
| `Decimal.FormatUintIsDecimal` | internal/logstream/sse.go:55-55 | an id is printed as the decimal digits of its value without leading zeros |
| `Decimal.ParseUintIsDecimal` | internal/logstream/sse.go:137-138 | digits are read as their decimal value, or as 2^64 - 1 if that is less |
| `Decimal.ParseNoNumber` | internal/logstream/sse.go:137-138 | anything else than digits is read as 0 |
| `Sse.TrimmedMeans` | internal/logstream/sse.go:148-153 | exactly the newlines and carriage returns at the end of a line are stripped |
| `Sse.OtherLinesIgnored` | internal/logstream/sse.go:122-141 | a line that is not blank and has none of the three prefixes with something behind it changes nothing |
| `Sse.UndecodablePayload` | internal/logstream/sse.go:125-129 | reading fails at the first payload that cannot be decoded, after delivering everything before it, whatever follows |
| `Sse.TrimNewline` | internal/logstream/sse.go:148-153 | the loop strips all trailing newlines and carriage returns |
| `Sse.ProcessLine` | internal/logstream/sse.go:122-141 | the switch on one line sets a field, or dispatches the pending event, or fails on its payload |
| `Sse.ReadSSE` | internal/logstream/sse.go:108-146 | the callback is given the events of the body in order: all of them if the reading ends by itself, those before the first undecodable payload, or a beginning that ends with the event it refuses or where the context is cancelled |
| `Sse.RoundTrip` | internal/logstream/sse.go:53-58 | any sequence of sent events and keep-alives is delivered as exactly those names, ids and payloads in order |
| `Sse.PrefixSafety` | internal/logstream/sse.go:108-146 | a stream cut after any byte delivers exactly the events whose frames arrived completely and no damaged one |
| `Wire.CutStream` | internal/logstream/sse.go:53-58 | a stream of events and keep-alives that breaks off after any byte delivers the first of the events, with their names, ids and texts |
| `Wire.BrokenConnection` | internal/logstream/sse.go:53-68 | a connection that breaks after any byte in flight leaves the client with the text and id of a Disconnect step that keeps some of the events |
| `Wire.FidelityAtEveryByte` | internal/logstream/sse.go:49-93 | in every run without a mixing read, a client cut off after any byte holds exactly one lifetime's bytes up to the id it resumes from |
| `EventStream.StandardRoundTrip` | internal/logstream/sse.go:53-58 | a client that parses the stream as section 9.2.6 of the WHATWG HTML Living Standard says is given exactly the events sent, with their names, payloads and ids, and nothing for keep-alives |
| `Wire.EventText` | internal/logstream/sse.go:53-58 | the bytes of a reset, append or gone event |
| `Wire.StandardClient` | internal/logstream/sse.go:22-34 | such a client is given the events in flight as messages of type reset, append or gone |
| `Tails.LastLines` | cmd/localapp/logs.go:97-120 | the backward count returns all of the data for n <= 0 and its last n lines otherwise |
| `Tails.TailLines` | cmd/localapp/logcat.go:116-135 | the backward search returns the last n lines, except that it drops a leading empty line when all lines are asked for |
| `Tails.TailsAgree` | cmd/localapp/logcat.go:118-135 | the two results are equal if and only if n is 0, the text is empty or does not begin with a newline, or n is less than its line count |
| `Tails.LastLinesAreLines` | cmd/localapp/logs.go:97-120 | logs shows all of the data for n <= 0, and otherwise a suffix cut at a line boundary with exactly min(n, lines) lines |
| `Tails.TailLinesAreLines` | cmd/localapp/logcat.go:116-135 | logcat shows the same, without a leading empty line when all lines are asked for |
| `Services.NormalizePathNormalizes` | internal/registry/registry.go:158-166 | a valid path normalizes to an empty or a proper mount, once and for all, and is left alone exactly if it is one |
| `Services.NormalizePathTrims` | internal/registry/registry.go:158-166 | a path is normalized by taking off the slashes at its end, and only those |
| `Services.PathIsMount` | internal/registry/registry.go:158-166 | a valid path is a mount if and only if it has any other character than slashes |
| `Services.ValidNameMeans` | internal/registry/registry.go:75-83 | names are 1 to 63 lower-case ASCII letters, digits and dashes |
| `Services.ValidPathMeans` | internal/registry/registry.go:93-106 | paths are empty, or begin with a slash and have no query, fragment or white space |
| `Services.ValidateReports` | internal/registry/registry.go:114-128 | each error is reported if and only if its check is the first to fail; ports are 1 to 65535 |
| `Services.NormalizeName` | internal/registry/registry.go:136-156 | the builder loop computes NormalName |
| `Services.NormalNameIsClean` | internal/registry/registry.go:130-156 | the result is empty or a valid name, without leading, trailing or doubled dashes |
| `Services.NormalNameFixes` | internal/registry/registry.go:136-156 | exactly the clean names of at most 63 characters are left alone, and normalizing twice equals normalizing once |
| `Services.NormalNameIsWords` | internal/registry/registry.go:130-156 | the name is the input's lower-case words joined by single dashes, cut at 63 characters without a dash at the end |
| `Services.RenderInjective` | internal/registry/registry.go:186-191 | host and path of a rendered address can be told apart |
| `Keyed.SortedIsCanonical` | internal/registry/store.go:169-175 | a strictly sorted list is determined by the map it stands for |
| `Keyed.SortKeepsMap` | internal/registry/store.go:169-175 | sorting records with unique names keeps the map and yields strict order |
| `Keyed.LessIsBefore` | internal/registry/store.go:169-175 | names are ordered as in a dictionary: a proper beginning first, otherwise by the first different character |
| `Registry.PutRefinesUpdate` | internal/registry/store.go:91-107 | Put sets one entry of the (app, service) map, leaves every other alone, and keeps the registry well-formed |
| `Registry.RemoveAppRefinesDelete` | internal/registry/store.go:123-124 | RemoveApp deletes exactly the app's entries |
| `Registry.RemoveServiceRefinesDelete` | internal/registry/store.go:146-151 | RemoveService deletes exactly one entry, and the app with its last one |
| `Registry.WellFormedIsCanonical` | internal/registry/store.go:20-24 | a well-formed registry is determined by the map it stands for |
| `Registry.SortAppsOfWellFormed` | internal/registry/store.go:44-46 | sorting what was saved changes nothing |
| `Registry.NamesAscend` | internal/registry/store.go:20-24 | the apps of a well-formed registry, and the services of each, are in ascending dictionary order of their names |
| `Registry.SortAppsAscends` | internal/registry/store.go:169-175 | whatever is sorted, no app and no service comes out behind one with a later name |
| `RegistryStore.CloneApps` | internal/registry/store.go:230-242 | a clone has the same values in new arrays that nothing shares |
| `RegistryStore.UpsertInto` | internal/registry/store.go:97-106 | sets the service in place or appends it to the slice |
| `RegistryStore.RemoveFrom` | internal/registry/store.go:148-148 | moves the rest of the slice down within its array, which removes exactly that service |
| `RegistryStore.SortApps` | internal/registry/store.go:169-175 | sorts apps and, in place, their services |
| `RegistryStore.Disk.Save` | internal/registry/store.go:188-228 | succeeds exactly without a fault, then replaces registry.json; otherwise leaves it; never leaves a temporary file, and registry.json never has any other content in between |
| `RegistryStore.Store.constructor` | internal/registry/store.go:26-47 | loads and sorts registry.json; a well-formed one is loaded as it is |
| `RegistryStore.Open` | internal/registry/store.go:26-47 | a file that cannot be read or parsed is an error; a missing or empty one gives an empty store, any other the sorted apps it holds |
| `RegistryStore.Store.Apps` | internal/registry/store.go:49-54 | returns a copy that shares no array with the store |
| `RegistryStore.Store.App` | internal/registry/store.go:56-65 | returns a copy of the app of that name, if there is one |
| `RegistryStore.Store.Commit` | internal/registry/store.go:177-186 | publishes the sorted copy only if it was saved; otherwise store and file keep their contents |
| `RegistryStore.Store.Put` | internal/registry/store.go:77-112 | an invalid request changes nothing and names the first error; a valid one upserts the normalized record in memory and on disk, or on a failed save changes neither; memory stays equal to disk; no earlier copy is written to, and no array the store newly holds existed before |
| `RegistryStore.Store.RemoveApp` | internal/registry/store.go:114-129 | removes the app in memory and on disk, or on a failed save neither; false when there is none; shares nothing with earlier copies |
| `RegistryStore.Store.RemoveService` | internal/registry/store.go:131-158 | removes the service, and its app with the last one, in memory and on disk, or on a failed save neither; false when there is none; shares nothing with earlier copies |
| `Routing.CoverIsSegmentPrefix` | internal/proxy/route.go:153-157 | a mount covers a path exactly if its segments are the path's first segments |
| `Routing.EqualLengthSameMount` | internal/proxy/route.go:133-157 | two mounts of equal length that cover a path are the same |
| `Routing.BestIsUnique` | internal/proxy/route.go:133-151 | there is one best service: the first, in registry order, with the longest covering mount; none exactly if no mount covers the path |
| `Routing.MatchPath` | internal/proxy/route.go:135-151 | the loop returns that service and its mount |
| `Routing.Resolve` | internal/proxy/route.go:73-131 | the record filled step by step is ResolveTo's |
| `Routing.PathUnderMount` | internal/proxy/route.go:118-122 | on an app's own host, for every path, a service is routed to by its mount if and only if it is the first with the longest mount that covers the path |
| `Routing.PathUnderNoMount` | internal/proxy/route.go:123-130 | a path that no mount covers goes to the service web, and to no service if the app has none |
| `Routing.Unregistered` | internal/proxy/route.go:99-116 | an unregistered app is an unknown app, an unregistered service label of an app an unknown service |
| `Routing.OtherHosts` | internal/proxy/route.go:77-97 | the apex is the domain itself; unknown are exactly the hosts that are not the domain with one or two labels in front |
| `Routing.RoutedMount` | internal/proxy/route.go:118-122 | a route by a mount carries the mount of its service, longest in the app, and the path lies under it |
| `Routing.NormalizeHostFixes` | internal/proxy/route.go:50-61 | a lower-case host name without port or final dot is left alone |
| `Routing.NormalizeHostForms` | internal/proxy/route.go:50-61 | upper case, a final dot, a port and blanks around a host make no difference |
| `Routing.BracketedHost` | internal/proxy/route.go:50-61 | brackets around an address are taken off, with a port or without |
| `Routing.RoutedHostLabels` | internal/proxy/route.go:77-104 | a host that leads to a service is the domain behind an app's name, before which stands a service's name, or nothing but a dot, or nothing |
| `Routing.RoutableIsCertifiable` | internal/proxy/route.go:73-131 | a host that leads to a service or the apex is accepted by validateHost if and only if it has at most 253 characters and does not begin with a dot |
| `Routing.LeadingDotRoutes` | internal/proxy/route.go:87-128 | a host with a leading dot leads where the app's own host does for every path, and gets no certificate |
| `Hosts.DomainShape` | internal/domain/domain.go:10-31 | a valid domain consists of name characters and dots and neither begins nor ends with a dot |
| `Hosts.ValidDomainMeans` | internal/domain/domain.go:10-31 | a domain is at most 253 characters of labels that are valid names without a dash at either end |
| `Hosts.CertifiableIsLabelled` | internal/ca/name.go:40-80 | validateHost accepts exactly the hosts of at most 253 characters that consist of the domain's labels with zero or more valid labels before them |
| `Hosts.HostErrors` | internal/ca/name.go:40-80 | each reason for refusing a host is given if and only if it is the first that applies |
| `Hosts.DnsMatchIsConstraint` | internal/dnsd/dnsd.go:90-95 | the names that, in lower case and without the final dot, are the domain with labels added on the left are those the DNS server answers, except names whose dot before the domain is escaped |
| `Hosts.EscapedDotIsAnswered` | internal/dnsd/dnsd.go:90-95 | for every domain, a single label answered by the DNS server that is not under it |
| `Hosts.FullyQualifiedMeans` | internal/dnsd/dnsd.go:90-95 | a name is fully qualified if and only if an unescaped dot ends it |
| `Hosts.CertifiableIsAnswered` | internal/ca/name.go:32-60 | every certifiable host is answered by the DNS server and lies within the dNSName constraint of section 4.2.1.10 of RFC 5280 |
| `AdvertisedUrls.AdvertisedAddresses` | internal/registry/registry.go:168-193 | the app's host for the default service, the service's host always, the mount if there is one, in this order and none left out as a repetition |
| `AdvertisedUrls.BuildURLs` | internal/registry/registry.go:175-193 | the slice of strings built up by add is those addresses rendered |
| `AdvertisedUrls.RenderedAddresses` | internal/registry/registry.go:168-193 | the strings themselves, with a mount address if and only if the path has any other character than slashes |
| `AdvertisedUrls.RootIsUncovered` | internal/proxy/route.go:141-145 | no mount captures the path "/" |
| `AdvertisedUrls.ServiceHostRoutes` | internal/proxy/route.go:106-116 | the service's own host leads to it whatever the path |
| `AdvertisedUrls.HostUrlsWork` | internal/registry/registry.go:185-188 | the addresses without a mount lead to the service that advertised them |
| `AdvertisedUrls.MountUrlWorks` | internal/registry/registry.go:189-191 | the literal mount address leads to the service by its mount if and only if no earlier service has the same mount |
| `AdvertisedUrls.EncodedMountUrlWorks` | internal/registry/registry.go:189-191 | the mount address, sent as advertised and read by net/url, does so if and only if, in addition, the mount has no percent sign and no control character |
| `PathEncoding.RequestUrl.StripMount` | internal/proxy/proxy.go:166-189 | cuts the mount from both paths, or drops a raw path that does not begin with it |
| `PathEncoding.StrippedPath` | internal/proxy/proxy.go:167-175 | the new path begins with a slash and the mount followed by it is the old one, unless that was the mount |
| `PathEncoding.RequestUrl.Forward` | internal/proxy/proxy.go:155-164 | the mount is taken off exactly for services that ask for it |
| `PathEncoding.ForwardedUnderMount` | internal/proxy/route.go:118-122 | the mount of a resolved route covers the path, so that taking it off leaves the rest |
| `PathEncoding.KeptUnderMount` | internal/proxy/proxy.go:176-188 | a raw path under the mount is kept as what follows the mount, any other is dropped |
| `PathEncoding.EncodeRoundTrip` | internal/proxy/proxy.go:186-188 | the default encoding of any path decodes to it |
| `PathEncoding.StrippingCommutesWithDecoding` | internal/proxy/proxy.go:166-189 | path and raw path still agree if and only if the mount has no percent sign or is not a prefix of the raw path |
| `PathEncoding.StrippedRequestAgrees` | internal/proxy/proxy.go:166-189 | the same for a request as net/url reads it, which keeps the raw path only if it is not the default encoding of the path |
| `PathEncoding.PercentMountDisagrees` | internal/proxy/proxy.go:179-184 | a request whose raw path is kept and no longer stands for the path after stripping |
| `LeafCache.ReturnedLeafIsGood` | internal/ca/leaf.go:23-65 | whatever the caches hold, a returned leaf names the host, is signed by the current root, is valid and stays so for 30 days |
| `LeafCache.NewLeafIsFor90Days` | internal/ca/leaf.go:84-93 | a new certificate is for the host alone, valid from an hour ago for 90 days from now, and on disk with its key |
| `LeafCache.ServedWithItsKey` | internal/ca/leaf.go:125-140 | a certificate is served from disk only together with the key it was issued for |
| `LeafCache.FailedIssuance` | internal/ca/leaf.go:102-117 | what each failure leaves in the caches and files |
| `LeafCache.IPv4Means` | internal/ca/leaf.go:61-61 | a host reads as an IPv4 address if it is four decimal numbers up to 255 with dots between them |
| `LeafCache.RefusedHosts` | internal/ca/leaf.go:27-30 | a host is refused with the reason validateHost gives, and then nothing changes |
| `LeafCache.IssuedIfNoneUsable` | internal/ca/leaf.go:31-49 | a certificate is issued if and only if the host is certifiable, nothing fails and neither cache holds a usable one |
| `LeafCache.ServedWithoutNeedlessIssuing` | internal/ca/leaf.go:26-49 | without faults exactly the certifiable hosts are served, and a certificate is issued only if neither cache has a usable one |
| `LeafCache.RenewalSpacing` | internal/ca/leaf.go:26-65 | with a clock that does not run backwards and a working disk, certificates for one host are issued more than 60 days apart, across restarts, unless the host reads as an IPv4 address |
| `LeafCache.AddressesAreNeverCached` | internal/ca/leaf.go:58-63 | for a host that reads as an IPv4 address every request issues a certificate |
| `LeafCache.CA.CertificateFor` | internal/ca/leaf.go:26-49 | performs the Request step on the memory cache and the files |
| `LeafCache.CA.Issue` | internal/ca/leaf.go:69-123 | writes the key file, then the certificate file, and fails as IssueLeaf says |
| `Admission.AtMostMaxAdmitted` | internal/dashboard/logs.go:64-70 | in every interleaving of increments, tests and decrements at most the maximum are admitted, and the counter is the number between increment and decrement |
| `Admission.AdmittedIfRoom` | internal/dashboard/logs.go:64-68 | a handler is admitted exactly if fewer than the maximum are counted when it increments, whatever steps of others come before its test, and refused otherwise |
| `Admission.WhoLeavesIsNotCounted` | internal/dashboard/logs.go:64-69 | admitted or refused, a handler that leaves is no longer counted, whatever others do in between |
| `Admission.RefusedWithFreePlace` | internal/dashboard/logs.go:64-68 | for every maximum, a run in which a handler is refused while one stream less than the maximum is open |

## Left out

- LogStore.Store.Append: entries are values in the map, where the program holds pointers that nothing else shares; updating an entry in place is replacing it.
- Sse.ReadSSE: the callback is a function of the events it has been given; cancellation is noticed between lines.
- Follow.ReaderFidelity: the captured flag of the events, and the browser's own trimming of its text.
- Keyed.Sort: sort.Slice leaves the order of equal names open; the registry never holds two.
- LeafCache.ReturnedLeafIsGood: signatures are the identity of the issuer, names are compared exactly (no wildcards), and other causes of an unreadable cache file than a missing or mismatched one are the `readable` choice.
- Event text that is not valid UTF-8, such as a character split between two appends, is altered by json.Marshal; the byte-exact statements about readers assume a payload codec that loses nothing.
- JSON and PEM encodings, keys and serial numbers, X.509 parsing, the root certificate's own creation and renewal.
- HTTP handlers, TLS, listeners, DNS messages, graceful shutdown, liveness probes, process checks and port scanning.
- writeTail and followFile of `logs -f`: they look at the last 64 KiB only and cannot see a file that was truncated and grew again.
- splitAppService, environment and flags, platform installation, HTML pages: single-branch facts or input and output.
- Letter case outside ASCII: only the two characters whose lower case is ASCII are mapped; no statement depends on the others.
- Uniqueness of order among several writers to one service: batches of different writers are appended as they arrive.
