# sing-box, verified core

A Dafny model of the parts of sing-box that keep hard state or do hard arithmetic, with proofs about every input, every
run or every interleaving. `dafny verify dfyconfig.toml` checks the whole project.

| file | component | main result |
|---|---|---|
| `ServiceLifecycle.dfy` | daemon reload, close and set-error under one lock that reload drops twice | no instance leaks and none is closed twice, in any interleaving of any number of calls |
| `ConnectionStream.dfy`, `ConnectionReplay.dfy` | snapshot/delta stream of connection events, and the client that replays it | the client holds exactly the server's ids after every message; the deltas add up |
| `DialRace.dfy` | parallel dialing with a delayed fallback group | every dialed connection is returned or closed exactly once; no deadlock; bounded work |
| `Uvarint.dfy`, `GeositeFormat.dfy`, `GeositeIO.dfy` | geosite file writer and random-access reader | reading any code, in any order, any number of times, gives back that code's list |
| `KtlsRead.dfy`, `KtlsConn.dfy` | kTLS record reading and handshake reassembly | any series of reads delivers exactly the application bytes |
| `KtlsInterlock.dfy` | lock-free Write/Close interlock | nothing follows close_notify, and it is sent at most once |
| `StartScheduler.dfy`, `OutboundIndex.dfy` | dependency-ordered start, and the manager's list and maps | start succeeds exactly on a closed acyclic graph of distinct tags; exactly when Remove keeps its books and whom it strands |
| `SingleFlight.dfy`, `NestedQueries.dfy` | DNS client lock, with queries nested through dialing | every channel is closed once; exactly when the lock deadlocks, and a condition that rules it out |
| `DnsCache.dfy`, `DnsRouting.dfy` | TTL handling and cache, rule retry loop | ages are exact; the loop computes the documented outcome and nothing else |
| `ClientHello.dfy` | nested length-prefixed ClientHello parser | parsing inverts encoding; the 16-bit slice bound cannot wrap; exactly which segments panic |
| `Common.dfy` | shared types | |

Concurrent code is a step relation over shared state and per-thread program counters; a run is a sequence of states
whose neighbours are steps, and theorems quantify over runs. Sequential code that updates state is a class or a method
with loops, proved against a function on values; theorems are about that function.

Conventions. Counters and lengths are unbounded integers except where the width matters: the 32-bit `ActiveCall`, the
16-bit `4+exLen`, 32-bit TTL subtraction and 64-bit varints are modelled at their width. Dial outcomes, rule matching,
upstream answers, clocks, start errors and registry errors are parameters or free choices of a step.

Where the code does less than one might expect, the model follows the code and says exactly when the expectation holds:

- An outbound that lists one dependency twice makes `Remove` drop the entry of another live outbound
  (`OutboundIndex.RepeatedDependencyLosesADependent`); `OutboundIndex.RemoveKeepsDependentsListed` gives the exact condition.
- A `Remove` that refuses because of dependents has already taken the outbound out of list and map
  (`OutboundIndex.RefusedRemoveExample`); `OutboundIndex.RemoveStrandsIff` says exactly when that strands a live outbound.
- A `Remove` can refuse although nobody live needs the tag, because a replacing `Create` and a refused `Remove` leave stale names
  behind (`OutboundIndex.StaleRefusalExample`); `OutboundIndex.UnjustifiedRefusalIff` gives the exact condition.
- The fallback outbound can take the tag of an endpoint, and then the start panics (`OutboundIndex.FallbackClashPanics`);
  `OutboundIndex.Manager.StartStage` gives the exact conditions of success and panic.
- FATAL with the lock free is final, and the current instance, if there is one, is never closed by the service after that,
  exactly when no reload is in its close-the-old window (`ServiceLifecycle.FatalIsFinalIff`); a failed start gets there with an
  instance that is not closed (`ServiceLifecycle.FailedStartLeavesInstanceOpen`).
- A DNS query that has to resolve, through its own dialing, a question already being asked by itself or by a query waiting for it
  hangs for ever, because the waiter ignores its context (`NestedQueries.SelfNestingDeadlocks`,
  `NestedQueries.MutualNestingDeadlocks`); `NestedQueries.SomeCallCanStepIff` says exactly when nothing can go on, and
  `NestedQueries.DescendingNeverDeadlocks` which configurations are safe.
- A dependency cycle that runs through an endpoint is reported as a missing dependency
  (`StartScheduler.EndpointCycleMisreported`); `StartScheduler.ClosedReport` says exactly when.
- A peer can make the ClientHello parser panic (`ClientHello.PanicRecordPanics`); `ClientHello.PanicsIff` says with which segments.
- `Create` over the tag of the current default leaves the default pointing at a removed outbound unless that tag is the
  configured default (`OutboundIndex.DanglingDefaultExample`, `OutboundIndex.CreateKeepsDefaultLive`).
- A follower woken from the single-flight lock queries without owning it, so a later owner can query at the same time
  (`SingleFlight.FollowerAndOwnerCanOverlap`); `SingleFlight.ConcurrentQueriers` says which of two must be such a follower.
- The stream loads a connection's counters twice when announcing it, so the client's total can stay off by the difference
  (`ConnectionReplay.ClientTotalCanDrift`); `ConnectionReplay.ClientTotal` says by exactly how much.
- A connection that is read as open and then as closed while the reset message is built leaves client and server out of
  step (`ConnectionReplay.ResetOutOfStepExample`, `ConnectionReplay.ResetInStepIff`).
- `Router.Lookup` does not clear the error of a rejected attempt when a later predefined rule answers
  (`DnsRouting.StaleErrorExample`); `DnsRouting.PredefinedIsClean` gives the exact condition. `Lookup` also retries on every
  error of an address-limited rule, `Exchange` only on a rejection.

## Model

| member | source | states |
|---|---|---|
| `ServiceLifecycle.RunKeepsInv` | daemon/started_service.go:166-237 | every reachable state of any number of interleaved reload, close and set-error calls satisfies the lifecycle invariant |
| `ServiceLifecycle.EveryInstanceIsCurrentOrClosedOnce` | daemon/started_service.go:166-237 | in every reachable state each instance has been closed at most once, and one that was installed and is not current has been closed exactly once |
| `ServiceLifecycle.LockFreeStatus` | daemon/started_service.go:112-237 | with the lock free: STARTING or STARTED has a current instance that is not closed; IDLE has none; at most one reload is in its close-the-old window; STOPPING has one; IDLE, STARTING and STARTED have none |
| `ServiceLifecycle.FatalLeftOnlyFromWindow` | daemon/started_service.go:166-208 | FATAL is left only to STARTING, and the thread that leaves it was in its close-the-old window while the lock was free, with FATAL throughout since |
| `ServiceLifecycle.FatalIsAbsorbing` | daemon/started_service.go:166-237 | FATAL with the lock free and no reload in its window lasts for ever; nothing is installed and no Close is called any more, so a current instance is never closed by the service |
| `ServiceLifecycle.WindowLeadsOut` | daemon/started_service.go:174-181 | a reload in its window can go on to close the current instance, if it has not, and to set STARTING |
| `ServiceLifecycle.FatalIsFinalIff` | daemon/started_service.go:166-237 | FATAL with the lock free is final in every continuation, with no further Close, exactly when no reload is in its window |
| `ServiceLifecycle.FailedStartLeavesInstanceOpen` | daemon/started_service.go:181-202 | a concrete run to such a state with an instance the service has not closed: one reload whose Start, which the run shows, returns an error |
| `ServiceLifecycle.FinishTellsOutcome` | daemon/started_service.go:193-207 | a reload that finishes while STARTING stands leaves FATAL exactly when its own call of Start, found earlier in the run, failed, and else STARTED; otherwise it changes nothing |
| `ServiceLifecycle.StartedMeansStartSucceeded` | daemon/started_service.go:193-207 | STARTED is reached only by a reload whose own Start succeeded earlier in the run |
| `ServiceLifecycle.CloseTellsOutcome` | daemon/started_service.go:210-231 | a CloseService that got through closed the instance current then, and leaves FATAL exactly when that failed, else IDLE without an instance |
| `ServiceLifecycle.IdleMeansCloseSucceeded` | daemon/started_service.go:210-231 | IDLE is reached only by a close that succeeded |
| `ServiceLifecycle.ReloadAdmission` | daemon/started_service.go:166-181 | a reload gets past its check exactly in IDLE, STARTING and STARTED, and what it does then |
| `ServiceLifecycle.CloseAdmission` | daemon/started_service.go:210-218 | a close gets past its check exactly in STARTING and STARTED |
| `ServiceLifecycle.SetErrorIsFatal` | daemon/started_service.go:233-237 | set-error makes any status FATAL and touches nothing else |
| `ServiceLifecycle.SuccessfulReload` | daemon/started_service.go:166-208 | a concrete run of one successful reload to STARTED |
| `ServiceLifecycle.FailedCreation` | daemon/started_service.go:183-186 | a concrete run of one reload whose instance cannot be made, to FATAL |
| `ServiceLifecycle.CloseAfterReload` | daemon/started_service.go:210-231 | concrete runs of a close that succeeds, to IDLE, and one that fails, to FATAL |
| `ServiceLifecycle.ReplacingCameFromWindow` | daemon/started_service.go:174-181 | a reload that holds the lock after closing the old instance came from its window, with the status unchanged since |
| `ServiceLifecycle.FatalLeftBySetStarting` | daemon/started_service.go:166-237 | the only step that leaves FATAL is a reload setting STARTING |
| `ServiceLifecycle.SomeCallCanStep` | daemon/started_service.go:166-237 | while any call is unfinished some call can take a step |
| `ConnectionStream.Server.BuildInitialConnectionState` | daemon/started_service.go:764-790 | for every id: the snapshot stored and the events sent, open connections first, then closed ones |
| `ConnectionStream.Server.ApplyConnectionEvent` | daemon/started_service.go:792-830 | the event's id gets exactly the specified snapshot and event, the closing time falls back from event to metadata to clock, and no other id changes |
| `ConnectionStream.Server.DrainBatch` | daemon/started_service.go:722-738 | for every id: a batch acts like its own events one after the other |
| `ConnectionStream.Server.VisitOne` | daemon/started_service.go:837-896 | one open connection at a tick: NEW, a delta, a zero after a transfer, or silence, with the snapshot that goes with it |
| `ConnectionStream.Server.VisitOpen` | daemon/started_service.go:833-896 | all open connections of a tick, for every id, and the set of active ids |
| `ConnectionStream.Server.BuildTrafficUpdates` | daemon/started_service.go:832-928 | for every id: what a tick stores and sends, whatever the order in which stale ids are swept |
| `ConnectionStream.Server.Serve` | daemon/started_service.go:714-753 | one turn of the subscription loop, for every id |
| `ConnectionStream.IndexClosed` | daemon/started_service.go:903-908 | the closed index holds the last entry listed for each id |
| `ConnectionReplay.Client.ApplyOne` | experimental/libbox/command_types.go:121-148 | an event changes what the client has under its id, open or closed, as specified, and nothing else |
| `ConnectionReplay.Client.ApplyEvents` | experimental/libbox/command_types.go:112-152 | replaying a message acts on each id by that id's events alone; afterwards the client has exactly that, less what has been closed for more than five minutes |
| `ConnectionReplay.LeavingIsRecorded` | daemon/started_service.go:810-826 | a connection that left is remembered with the event's time, else the metadata's, else the clock's, and with the metadata's totals, else the last known ones |
| `ConnectionReplay.SweepingIsRecorded` | daemon/started_service.go:909-923 | one that a tick found gone is remembered by the last entry of the closed list, with its time or else the clock's |
| `ConnectionReplay.FiveMinutes` | experimental/libbox/command_types.go:164-173 | a closed connection is dropped exactly when it has been closed for more than 300000 milliseconds |
| `ConnectionReplay.Client.EvictClosedConnections` | experimental/libbox/command_types.go:164-173 | eviction removes exactly the connections closed for more than five minutes and touches no open one |
| `ConnectionReplay.Subscribe` | daemon/started_service.go:696-757 | server and client driven together over any inputs end, for every id, in the state the one-id semantics gives |
| `ConnectionReplay.RunIsGood` | daemon/started_service.go:764-928 | in every run and for every id, client and server agree, the history is well ordered, no delta is negative, and the traffic flag says whether the last event was a transfer |
| `ConnectionReplay.ClientMatchesSnapshots` | daemon/started_service.go:764-928 | after every message the ids the client holds open are exactly the keys of the server's snapshot map |
| `ConnectionReplay.TickMatchesManager` | daemon/started_service.go:832-928 | after every tick those keys are exactly the manager's open connections |
| `ConnectionReplay.ResetInStepIff` | daemon/started_service.go:764-790 | after the reset message an id is in step exactly when it is not listed both as open and as closed |
| `ConnectionReplay.ResetOutOfStepExample` | daemon/started_service.go:764-790 | one id in both lists leaves the server with a snapshot and the client without an open connection |
| `ConnectionReplay.TickHeals` | daemon/started_service.go:832-928 | a tick that does not list an id as open forgets it, and closes it at the client if the server still had it, whatever the start lists were |
| `ConnectionReplay.EventsAreWellOrdered` | daemon/started_service.go:764-928 | no open id gets a second NEW before a CLOSED, no UPDATE concerns an id that is not open, and no delta is negative |
| `ConnectionReplay.HotIsLastTick` | daemon/started_service.go:837-896 | the traffic flag is set only if the latest tick sent one event about the id and it was a transfer |
| `ConnectionReplay.ZeroOnlyAfterTransfer` | daemon/started_service.go:854-896 | a zero-delta UPDATE comes only directly after a tick that sent a non-zero one, and after such a tick the next is never silent about the id |
| `ConnectionReplay.BatchShape` | daemon/started_service.go:792-830 | a batch leaves an id alone, or last announces it, or last closes it |
| `ConnectionReplay.TickShape` | daemon/started_service.go:837-925 | a tick sends at most one event about an id, a CLOSED for a known id that is gone |
| `ConnectionReplay.SnapshotWasRead` | daemon/started_service.go:792-896 | every stored snapshot is a value of the id's counters that the server has read |
| `ConnectionReplay.LedgerBalances` | daemon/started_service.go:792-896 | for counters that never decrease, the baseline stored at NEW plus all deltas sent since is the stored counter, in every run |
| `ConnectionReplay.StoredIsLatest` | daemon/started_service.go:832-896 | after a tick the stored counter is the one the tick read, and a batch silent about an id leaves it |
| `ConnectionReplay.HeldTotal` | experimental/libbox/command_types.go:127-133 | the client's total is what the last NEW carried plus the deltas since |
| `ConnectionReplay.ClientTotal` | daemon/started_service.go:764-896 | the client's total differs from the counter by exactly the difference of the two loads made at NEW, so it is right exactly when they agreed |
| `ConnectionReplay.AnnouncementTakesBothLoads` | daemon/started_service.go:764-853 | at each of the three places an id is announced, the snapshot holds the one load and the client the other |
| `ConnectionReplay.ClientTotalCanDrift` | daemon/started_service.go:767-776 | a concrete reset message after which the client's total is not the counter |
| `DialRace.ConnectionsConserved` | common/dialer/default_parallel_interface.go:25-87 | in every run each connection is returned or closed at most once and never both; once the caller has returned and all racers have finished, exactly once |
| `DialRace.ErrorMeansEveryoneFailed` | common/dialer/default_parallel_interface.go:52-87 | the caller has returned an error exactly when every racer has reported a failure, and then nothing was dialed |
| `DialRace.NetworkDoneFlags` | common/dialer/default_parallel_network.go:100-129 | with one primary and one fallback racer the two done flags amount to counting both errors |
| `DialRace.FallbackLaunchJustified` | common/dialer/default_parallel_network.go:85-129 | the fallback group is launched at most once, and before the delay only after a reported primary failure; until then no fallback racer has started |
| `DialRace.PrimaryFailureHastensFallback` | common/dialer/default_parallel_interface.go:83-85 | once a primary failure has been received the timer is not armed for later, and while the fallback group has not started the next step towards it is possible at once |
| `DialRace.PrimaryErrorIsNoted` | common/dialer/default_parallel_interface.go:75-85 | that holds of every primary error received |
| `DialRace.FallbackStartsAtOnce` | common/dialer/default_parallel_network.go:119-128 | a concrete run: the primary fails at once and the fallback starts at once, long before the delay |
| `DialRace.LoserIsClosed` | common/dialer/default_parallel_interface.go:108-151 | a concrete run: both racers connect, one is returned and the other closed |
| `DialRace.WaitingHasAReason` | common/dialer/default_parallel_interface.go:52-87 | while the caller waits some racer is unfinished or the timer is still due |
| `DialRace.WorkRemainsPossible` | common/dialer/default_parallel_interface.go:25-87 | until everyone is done some step is possible, or the caller waits, has received no primary failure, and the timer has still to expire |
| `DialRace.WorkUsesUpMeasure` | common/dialer/default_parallel_interface.go:25-87 | every step of work lowers a natural number |
| `DialRace.WorkIsBounded` | common/dialer/default_parallel_interface.go:25-151 | a whole run holds at most 5 steps of work a racer, and 2 more |
| `DialRace.DialSerialNetwork` | common/dialer/default_parallel_network.go:16-45 | returns the first address that connects after failing at every earlier one, in order, or all the errors |
| `Uvarint.DecodeEncode` | common/geosite/reader.go:57-101 | decoding an encoded 64-bit value followed by anything gives the value and leaves the rest |
| `Uvarint.DecodeFits` | common/geosite/reader.go:57-101 | a decoded value always fits in 64 bits |
| `Uvarint.EncodeIsBase128` | common/geosite/writer.go:66-73 | an encoding is the base-128 digits, least significant first, all but the last marked, and no longer than needed |
| `GeositeFormat.StringRoundTrip` | common/geosite/reader.go:145-158 | reading a written string followed by anything gives it back |
| `GeositeFormat.ItemsRoundTrip` | common/geosite/reader.go:103-126 | reading a written item list followed by anything gives it back |
| `GeositeFormat.RowsRoundTrip` | common/geosite/reader.go:57-101 | reading the written index table gives the index built from its rows |
| `GeositeFormat.IndexedAllLookup` | common/geosite/reader.go:72-101 | the index maps each row's code to that row's offset and length and adds nothing else |
| `GeositeFormat.ContentSplit` | common/geosite/writer.go:17-31 | a code's items lie in the content area at the offset that is the length of all earlier items |
| `GeositeFormat.FileFits` | common/geosite/writer.go:10-64 | in a file shorter than 2^63 bytes every offset, count and length fits its field |
| `GeositeFormat.FileLayout` | common/geosite/writer.go:33-64 | one file byte by byte |
| `GeositeFormat.OpenWritten` | common/geosite/reader.go:36-101 | opening a written file succeeds, leaves the content area unread, and lists each code with its offset and length |
| `GeositeFormat.ReadWritten` | common/geosite/reader.go:103-126 | reading any code of a written file gives that code's list, and any other code is reported missing |
| `GeositeIO.SortedUnique` | common/geosite/writer.go:11-15 | two sorted key lists with the same members are equal |
| `GeositeIO.LessIsLexicographic` | common/geosite/writer.go:15-15 | the key order is the dictionary order of bytes |
| `GeositeIO.WriteDeterministic` | common/geosite/writer.go:10-64 | the file depends only on the map, not on the order of iteration |
| `GeositeIO.SortedKeys` | common/geosite/writer.go:11-15 | a strictly sorted list of exactly the map's keys |
| `GeositeIO.WriteItems` | common/geosite/writer.go:21-30 | appends the printed items |
| `GeositeIO.WriteContent` | common/geosite/writer.go:17-31 | content in key order, and each code's offset is the length of the content before it |
| `GeositeIO.WriteRows` | common/geosite/writer.go:43-56 | appends the index table |
| `GeositeIO.Write` | common/geosite/writer.go:10-64 | the whole file, with keys sorted |
| `GeositeIO.Reader.constructor` | common/geosite/reader.go:36-49 | a reader at the start of its bytes |
| `GeositeIO.Reader.ReadByte` | common/geosite/reader.go:132-143 | the next byte through the buffer, with the counter kept in step |
| `GeositeIO.Reader.ReadUvarint` | common/geosite/reader.go:57-101 | the loop over bytes decodes one varint |
| `GeositeIO.Reader.ReadBytes` | common/geosite/reader.go:145-158 | exactly n bytes or an error |
| `GeositeIO.Reader.ReadString` | common/geosite/reader.go:145-158 | one length-prefixed string |
| `GeositeIO.Reader.ReadRow` | common/geosite/reader.go:72-96 | one row of the index table |
| `GeositeIO.Reader.ReadMetadata` | common/geosite/reader.go:57-101 | the index, and the content start as the bytes consumed less the bytes still buffered |
| `GeositeIO.Reader.Read` | common/geosite/reader.go:103-126 | the result depends on the file and the code only, whatever was read before |
| `GeositeIO.WriteOpenRead` | common/geosite/reader.go:36-126 | writing any map, opening it and reading any codes in any order gives each code's list or "not exists"; the codes listed are the map's keys |
| `KtlsRead.ReadRecordPays` | common/ktls/ktls_read.go:61-166 | reading a record moves application bytes from the records to the input and loses none unless an error sticks |
| `KtlsRead.DrainHandPays` | common/ktls/ktls_key_update.go:19-47 | handling buffered handshake data costs no application bytes |
| `KtlsRead.ReadPays` | common/ktls/ktls_read.go:17-59 | one Read delivers the next bytes owed, however it ends |
| `KtlsRead.SeriesPays` | common/ktls/ktls_read.go:17-59 | so does any series of reads with any buffer sizes |
| `KtlsRead.SeriesDeliversPrefix` | common/ktls/ktls_read.go:17-166 | over any record sequence any series of reads delivers a prefix of the application payloads, and all but what is still owed if no error stuck |
| `KtlsRead.ReadProgresses` | common/ktls/ktls_read.go:17-59 | over well-formed records a Read with room delivers at least one byte while any is owed, and end of file otherwise |
| `KtlsRead.SeriesDeliversEverything` | common/ktls/ktls_read.go:17-166 | over well-formed records, enough reads of any non-empty sizes deliver exactly the application payloads in order |
| `KtlsRead.StripPrefix` | common/ktls/ktls_key_update.go:103-142 | any cut of a sequence of messages leaves whole messages to handle and a remainder that the rest completes |
| `KtlsRead.FragmentsAreWellFormed` | common/ktls/ktls_key_update.go:103-142 | well-formed messages cut arbitrarily over consecutive handshake records are well formed for the reader |
| `KtlsRead.EncodedLength` | common/ktls/ktls_key_update.go:132-132 | the length read from a header is the big-endian 24-bit length of section 4 of RFC 8446 |
| `KtlsRead.MessagesAreWellFormed` | common/ktls/ktls_key_update.go:103-142 | tickets and key updates given by type and body, encoded and cut into records of at most 2^14 bytes anyhow, are well formed |
| `KtlsRead.PeerIsHeardExactly` | common/ktls/ktls_read.go:17-166 | whatever data, ignorable records and fragmented messages a peer sends, and whether it ends by closing or by close_notify with anything behind it, enough reads deliver exactly the payloads |
| `KtlsRead.VerdictsTls13` | common/ktls/ktls_read.go:71-163 | by the numbers, exactly which TLS 1.3 records are taken, end the stream, are passed over or are refused, and with which alert |
| `KtlsRead.VerdictsTls12` | common/ktls/ktls_read.go:71-163 | the same for TLS 1.2 |
| `KtlsRead.MessageOutcomes` | common/ktls/ktls_key_update.go:34-101 | by the numbers, what acting on each message comes to and which errors poison the reading side |
| `KtlsRead.OversizedIsRefused` | common/ktls/ktls_key_update.go:132-136 | a header announcing more than 65536 bytes poisons the connection at once |
| `KtlsRead.MessageIsTakenOff` | common/ktls/ktls_key_update.go:137-141 | any other message that is buffered is taken off exactly, and fails exactly when acting on it does |
| `KtlsRead.ErrorSticks` | common/ktls/ktls_read.go:61-64 | a poisoned reading side returns the same error for ever |
| `KtlsRead.DrainHandHealthy` | common/ktls/ktls_key_update.go:19-142 | draining complete or fragmented messages ends without error and with an empty handshake buffer |
| `KtlsRead.FillInputHealthy` | common/ktls/ktls_read.go:31-40 | filling the input from well-formed records ends with input or at end of file |
| `KtlsConn.Connection.ReadRecord` | common/ktls/ktls_read.go:61-166 | called only with the input drained; the new state and error are the specified ones |
| `KtlsConn.Connection.ReadHandshakeBytes` | common/ktls/ktls_key_update.go:103-113 | reads records until enough handshake bytes are buffered |
| `KtlsConn.Connection.HandlePostHandshakeMessage` | common/ktls/ktls_key_update.go:19-47 | takes one whole message off the buffer and handles it |
| `KtlsConn.Connection.DrainHandshake` | common/ktls/ktls_read.go:35-39 | handles messages until the buffer is empty |
| `KtlsConn.Connection.Read` | common/ktls/ktls_read.go:17-59 | one Read, as specified, for every state |
| `KtlsInterlock.RunKeepsInv` | common/ktls/ktls_write.go:16-74 | every reachable state of interleaved writes and closes satisfies the interlock invariant |
| `KtlsInterlock.ActiveCallCountsWriters` | common/ktls/ktls_write.go:20-30 | `ActiveCall` is twice the writers in flight plus the closes that passed the swap, at most one of those, with no 32-bit wrap |
| `KtlsInterlock.NothingFollowsCloseNotify` | common/ktls/ktls_close.go:15-67 | after a close_notify comes neither application data nor a second one |
| `KtlsInterlock.CloseDuringWriteStaysSilent` | common/ktls/ktls_close.go:15-52 | a close that finds a writer in flight never lets a close_notify out, however the run goes on |
| `KtlsInterlock.LoneCloseNotifies` | common/ktls/ktls_close.go:41-67 | a close that is alone after the handshake has sent close_notify, or tried to, by the time it returns |
| `KtlsInterlock.NoWriteEntersAfterClose` | common/ktls/ktls_write.go:20-30 | a write not yet admitted when a close passes the swap never is |
| `KtlsInterlock.NothingBeforeHandshake` | common/ktls/ktls_write.go:43-45 | application data and close_notify go out only after the handshake |
| `KtlsInterlock.NoDataAfterError` | common/ktls/ktls_write.go:39-41 | after an error on the sending side no application data goes out |
| `KtlsInterlock.SentMeansNoWriter` | common/ktls/ktls_write.go:16-74 | once close_notify is out no write is in flight |
| `KtlsInterlock.WriteThenClose` | common/ktls/ktls_write.go:16-74 | a concrete run of a write and a close to data followed by close_notify |
| `StartScheduler.AllStarted` | adapter/outbound/manager.go:110-115 | true exactly when all dependencies are started |
| `StartScheduler.Pass` | adapter/outbound/manager.go:103-142 | one pass starts outbounds only after their dependencies; it starts one, fails at one, or proves that all are stuck; tags may repeat |
| `StartScheduler.StartOutbounds` | adapter/outbound/manager.go:99-171 | for any list: succeeds exactly when tags are distinct, the graph is closed and acyclic and none fails; fails at a start exactly when some order meets a failing one; with a repeated tag it never succeeds, and panics exactly when every tag could be started; the order is topological without repeats; every report is right |
| `StartScheduler.FindUnstarted` | adapter/outbound/manager.go:149-151 | an outbound that is not started, or nil when there is none |
| `StartScheduler.LintIsRight` | adapter/outbound/manager.go:152-168 | the recursive lint ends, and its report names a chain of real edges closing on itself or a tag missing from the map |
| `StartScheduler.MisreportsIff` | adapter/outbound/manager.go:152-168 | where the whole list shows a cycle, the report is "not found" for a tag that exists exactly when the chain walked leaves the tag map, and otherwise is that cycle |
| `StartScheduler.ClosedReport` | adapter/outbound/manager.go:149-168 | on a closed list a stuck start is always a cycle, and is reported as "not found" exactly when the chain runs through an endpoint |
| `StartScheduler.EndpointCycleMisreported` | adapter/outbound/manager.go:160-165 | a concrete cycle through an endpoint, reported as a missing dependency |
| `StartScheduler.CircularGivesCycle` | dns/transport_manager.go:124-143 | a circular report proves the graph cyclic |
| `StartScheduler.StuckIsJustified` | dns/transport_manager.go:90-123 | a stuck scheduler means the graph is not closed or not acyclic |
| `StartScheduler.StuckIsMaximal` | adapter/outbound/manager.go:99-148 | a stuck scheduler has started everything that any order could start |
| `StartScheduler.TagsSize` | adapter/outbound/manager.go:143-145 | comparing the number of started tags with the length of the list detects a repeated tag |
| `StartScheduler.CompleteOrderIsAcyclic` | adapter/outbound/manager.go:99-145 | a complete topological order means the graph is closed and acyclic |
| `OutboundIndex.CreateKeepsIndexes` | adapter/outbound/manager.go:267-317 | Create, with or without an error, keeps list and map in bijection and dependents listed |
| `OutboundIndex.RemoveKeepsBijection` | adapter/outbound/manager.go:223-265 | so does Remove for the bijection, whatever it returns |
| `OutboundIndex.RemoveKeepsDependentsListed` | adapter/outbound/manager.go:247-260 | Remove keeps every live outbound listed under its dependencies exactly when it refuses or there is no clash |
| `OutboundIndex.ReleasedTwice` | adapter/outbound/manager.go:251-260 | releasing a tag n times from a list gives the others, or nothing when n is at least two and one other is left |
| `OutboundIndex.NoRepeatsNoClash` | adapter/outbound/manager.go:251-260 | without repeated dependencies there is no clash |
| `OutboundIndex.RepeatedDependencyLosesADependent` | adapter/outbound/manager.go:251-260 | a concrete run after which Remove succeeds on a tag that a live outbound depends on |
| `OutboundIndex.NeededRemoveIsRefused` | adapter/outbound/manager.go:223-250 | Remove of a tag that a live outbound depends on is refused and names it, but the tag is gone from list and map, the dependent stays, and the reverse map is unchanged |
| `OutboundIndex.RemoveStrandsIff` | adapter/outbound/manager.go:223-265 | Remove leaves a live outbound without its dependency exactly when another outbound depends on the tag, and then it is always refused |
| `OutboundIndex.RefusedRemoveExample` | adapter/outbound/manager.go:223-250 | a concrete run in which a refused Remove strands a live outbound |
| `OutboundIndex.UnjustifiedRefusalIff` | adapter/outbound/manager.go:247-250 | Remove refuses although nobody live needs the tag exactly when every name listed under it is stale or its own |
| `OutboundIndex.CreateKeepsNamesIff` | adapter/outbound/manager.go:289-309 | Create leaves no stale name exactly when a replaced outbound had no dependency the new one lacks |
| `OutboundIndex.RemoveKeepsNamesIff` | adapter/outbound/manager.go:247-260 | Remove leaves no stale name exactly when it is not refused or the tag had no dependencies |
| `OutboundIndex.TidyRunKeepsNames` | adapter/outbound/manager.go:53-317 | in every run whose events meet those conditions all listed names are justified |
| `OutboundIndex.RefusalHasAReason` | adapter/outbound/manager.go:247-250 | where names are justified a refusal has a live dependent, or the tag depends on itself alone |
| `OutboundIndex.StaleRefusalExample` | adapter/outbound/manager.go:247-317 | a concrete run after which Remove refuses for the sake of a replaced outbound |
| `OutboundIndex.FallbackNeverCollides` | adapter/outbound/manager.go:53-81 | Start keeps the indexes, and the fallback is added only under a tag no outbound has; for endpoint tags see `StartKeepsEndpointsApartIff` |
| `OutboundIndex.RunKeepsIndexes` | adapter/outbound/manager.go:53-317 | every run of Create, Remove and Start without a clash keeps all three invariants |
| `OutboundIndex.CreateKeepsDefaultLive` | adapter/outbound/manager.go:289-317 | the default is still a live outbound after Create exactly when its tag was not replaced or is the configured default |
| `OutboundIndex.DanglingDefaultExample` | adapter/outbound/manager.go:289-317 | a concrete run that leaves the default dangling |
| `OutboundIndex.RemoveKeepsDefaultLive` | adapter/outbound/manager.go:238-246 | Remove of another tag leaves the default; of its own it moves to the first surviving outbound, and to none exactly when none survives; refused or not |
| `OutboundIndex.CreateChoosesDefault` | adapter/outbound/manager.go:310-315 | a configured default is chosen exactly while an outbound of its tag is there; with none configured the first created stays |
| `OutboundIndex.StartChoosesDefault` | adapter/outbound/manager.go:60-78 | after a successful starting stage there is a default: the one there was, else the configured endpoint, else the fallback |
| `OutboundIndex.RunKeepsDefaultLive` | adapter/outbound/manager.go:53-317 | in every run in which no Create replaces the default under an unconfigured tag and no endpoint becomes it, the default is live or absent |
| `OutboundIndex.CreateResults` | adapter/outbound/manager.go:267-317 | exactly when Create succeeds or what it complains of, a complaint changing nothing |
| `OutboundIndex.RemoveResults` | adapter/outbound/manager.go:223-265 | exactly when Remove succeeds or what it complains of, and what it changes then |
| `OutboundIndex.StartMarksStarted` | adapter/outbound/manager.go:53-81 | every Start marks the manager started |
| `OutboundIndex.SchedulerHypotheses` | adapter/outbound/manager.go:79-81 | the list handed to the scheduler, outbounds then endpoints, has distinct tags exactly when the endpoints' tags are distinct and no outbound has one; the tag map indexes it |
| `OutboundIndex.StartKeepsEndpointsApartIff` | adapter/outbound/manager.go:60-81 | endpoints that the configuration check keeps apart (option/options.go:78-101) stay apart through Start exactly when the fallback takes no endpoint's tag |
| `OutboundIndex.Manager.StartStage` | adapter/outbound/manager.go:53-81 | the starting stage as a whole: succeeds exactly when the fallback takes no endpoint's tag, the graph is closed and acyclic and nothing fails; panics exactly when it takes one and everything could be started |
| `OutboundIndex.FallbackClashPanics` | box.go:318-326 | no outbounds and one endpoint tagged "direct": accepted by the configuration check, and the start panics |
| `OutboundIndex.CutOut` | adapter/outbound/manager.go:231-237 | the list without that outbound |
| `OutboundIndex.ListUnderEach` | adapter/outbound/manager.go:306-309 | the tag appended under each dependency |
| `OutboundIndex.ReleaseEach` | adapter/outbound/manager.go:251-260 | the loop over dependencies, as specified |
| `OutboundIndex.Manager.Create` | adapter/outbound/manager.go:267-317 | the new fields and the result, and the bijection |
| `OutboundIndex.Manager.Remove` | adapter/outbound/manager.go:223-265 | the new fields and the result, and the bijection |
| `OutboundIndex.Manager.Start` | adapter/outbound/manager.go:53-81 | the new fields and the result |
| `SingleFlight.OwnerHoldsItsEntry` | dns/client.go:143-171 | an owner's entry in the lock map is its own, so its delete removes only that; one owner a question |
| `SingleFlight.ChannelsCloseOnce` | dns/client.go:143-171 | no channel is closed twice, and none is closed before its owner does it |
| `SingleFlight.StoredIsClosedOrDue` | dns/client.go:143-171 | every channel ever stored is closed or has exactly one thread due to close it, waited for or not |
| `SingleFlight.WaiterIsNotStranded` | dns/client.go:143-171 | a waiter's channel is closed, or exactly one owner is still due to close it |
| `SingleFlight.ConcurrentQueriers` | dns/client.go:143-171 | of two callers querying one question at once with the cache on, one is a follower that was already released |
| `SingleFlight.FollowerAndOwnerCanOverlap` | dns/client.go:143-171 | a concrete run with a follower and an owner querying one question at once |
| `NestedQueries.SomeCallCanStepIff` | dns/client.go:143-190 | in every reachable state, nested calls included, some call can step exactly when some unfinished call does not lead into a cycle of waits |
| `NestedQueries.ReachesStepper` | dns/client.go:143-190 | from a call that does not lead into a cycle, waits lead to a call that can step |
| `NestedQueries.CycleIsForEver` | dns/client.go:143-171 | calls in or leading into a cycle of waits stay where they are in every continuation |
| `NestedQueries.SelfNestingDeadlocks` | common/dialer/resolve.go:94-104 | a concrete run: a nested query for the question its own caller holds, after which nothing can step |
| `NestedQueries.MutualNestingDeadlocks` | common/dialer/resolve.go:94-104 | the same with two questions that need each other |
| `NestedQueries.DescendingNeverDeadlocks` | dns/client.go:143-190 | if nested questions descend in some ranking, there is no cycle, and while a call is unfinished some call can step |
| `NestedQueries.DescendingFinishes` | dns/client.go:143-190 | then any run can be continued until every call has returned |
| `NestedQueries.StepsUseUpRank` | dns/client.go:143-171 | every step of a call lowers a natural number |
| `NestedQueries.WorkIsBounded` | dns/client.go:143-171 | n calls, nested ones included, take at most 4n steps between them in every run |
| `DnsCache.ExtractNegativeTtl` | dns/client.go:98-110 | the negative TTL is that of the first SOA record, the lesser of its TTL and its minimum |
| `DnsCache.MinPositive` | dns/client.go:273-281 | the least positive TTL of all sections, or 0 if there is none |
| `DnsCache.ChooseTtl` | dns/client.go:267-284 | the TTL of a message by its kind and by RewriteTTL; without RewriteTTL a non-empty answer gets its minimum positive TTL |
| `DnsCache.TtlExamples` | dns/client.go:98-284 | five messages and the TTL each is given |
| `DnsCache.Stamp` | dns/client.go:285-289 | the chosen TTL in every record and nothing else changed |
| `DnsCache.StampedMinPositive` | dns/client.go:472-479 | a stamped message has that TTL as its minimum |
| `DnsCache.AgeUniform` | dns/client.go:472-498 | ageing a stamped message leaves the remaining seconds in every record without 32-bit underflow |
| `DnsCache.Age` | dns/client.go:485-491 | subtraction at 32 bits in every record |
| `DnsCache.RemainingAges` | dns/client.go:429-500 | from the whole TTL at storing, k seconds later exactly k seconds less remain |
| `DnsCache.Cache.Store` | dns/client.go:364-387 | nothing for TTL 0, else one entry; every entry carries one positive TTL and is an answer or a denial |
| `DnsCache.Cache.Load` | dns/client.go:429-500 | a hit before expiry carries in every record exactly the whole seconds remaining, rounded down; no hit after expiry, and the entry is gone |
| `DnsCache.AgeingExample` | dns/client.go:429-500 | with a TTL of 60: 59 half a second later, 0 at expiry, gone a nanosecond after |
| `DnsCache.Cache.KeysTellApart` | dns/client.go:364-387 | the shared cache tells questions apart, the independent one transports too |
| `DnsCache.Exchange` | dns/client.go:112-306 | cache hit, failure, rejection or a stamped answer, each with the whole new cache: an expired entry dropped, an answer stored when it may be, every other entry kept |
| `DnsRouting.ClientExchange` | dns/client.go:112-247 | a query the strategy refuses is answered empty and unchecked; otherwise only a checked exchange is rejected, a checked fresh answer lies within the limit, and only a check leaves addresses in the metadata |
| `DnsRouting.ExchangeOutcome` | dns/client.go:112-247 | exactly when an exchange is rejected, fails or is answered, from where, and which addresses it leaves in the metadata |
| `DnsRouting.StrategyRefusal` | dns/client.go:120-125 | exactly which queries a strategy refuses |
| `DnsRouting.MatchDns` | dns/router.go:120-199 | the scan loop computes the recursive match |
| `DnsRouting.MatchIsFirst` | dns/router.go:120-199 | a match stops at the first deciding rule, under the options folded over exactly the rules it passed |
| `DnsRouting.FoldedLastWins` | dns/router.go:178-190 | field by field the last matched route-options rule that sets it wins, and the cache is off once anyone turns it off |
| `DnsRouting.RoutePriorities` | dns/router.go:148-177 | a routed attempt runs under the route's own setting, else the folded one, else the legacy transport's, else the default strategy; fake-IP is never cached |
| `DnsRouting.WalkViaMatch` | dns/router.go:250-304 | a walk over the rules is one match and what its rule leads to |
| `DnsRouting.Resolve` | dns/router.go:250-304 | the retry loop ends and computes the single walk; the error left over is stated |
| `DnsRouting.WalkIsLawful` | dns/router.go:250-304 | the outcome is that of the first deciding rule whose address limit does not turn the reply down, each attempt made under options folded since the previous one |
| `DnsRouting.LawfulIsUnique` | dns/router.go:250-304 | no other attempts and no other outcome meet that description |
| `DnsRouting.AttemptsAscend` | dns/router.go:250-304 | rule indices strictly increase, so at most one exchange a rule and one default; all but the last come from address-limited rules |
| `DnsRouting.RefusedQueryEndsWalk` | dns/client.go:120-125 | an attempt whose strategy refuses the query is the last, and its empty answer stands whatever the address limit |
| `DnsRouting.FailedExchangeEndsWalk` | dns/router.go:282-303 | an exchange that fails outright is never retried |
| `DnsRouting.FinalReplyStands` | dns/router.go:282-303 | the reply that stands was not turned down: no rejection by an address-limited rule, and for a lookup no error of one |
| `DnsRouting.NonAddressIsAskedOnce` | dns/router.go:131-133 | a query for no addresses uses no rule with an address limit and is asked at most once |
| `DnsRouting.AttemptsAskTheRightServer` | dns/router.go:148-158 | each attempt asks the server its rule names, which exists and for a lookup is no fake-IP one, or the default |
| `DnsRouting.FirstRuleRejects` | dns/router.go:255-270 | a rejecting rule that decides first refuses or drops without asking anyone |
| `DnsRouting.Lookup` | dns/router.go:324-418 | addresses and error of Lookup in every case |
| `DnsRouting.StaleErrorExample` | dns/router.go:369-410 | a concrete rule set where a predefined answer comes back with an earlier rule's error |
| `DnsRouting.PredefinedIsClean` | dns/router.go:369-410 | a predefined answer comes without a stale error exactly when its rule is the first deciding one |
| `ClientHello.WordLoopInRange` | common/ja3/parser.go:262-277 | the 16-bit list loop stays in range exactly when the declared length, rounded up to even, fits |
| `ClientHello.PanicsIff` | common/ja3/parser.go:53-287 | a segment makes the parser panic exactly when its extension block is reached and holds, behind accepted extensions only, a versions or signature-algorithms extension whose declared length, rounded up to even, exceeds its body |
| `ClientHello.PanicRecordPanics` | common/ja3/parser.go:262-269 | one concrete record that does |
| `ClientHello.AcceptsIff` | common/ja3/parser.go:53-287 | by the numbers, exactly which segments are accepted, and the version they are taken to have |
| `ClientHello.AcceptedIff` | common/ja3/parser.go:197-278 | by the numbers, exactly which extensions are accepted |
| `ClientHello.SupportedVersions` | common/ja3/parser.go:104-108 | versions 0x0300 to 0x0304 |
| `ClientHello.ExtensionsOnTheWire` | common/ja3/parser.go:197-278 | the five extensions byte by byte |
| `ClientHello.RecordOnTheWire` | common/ja3/parser.go:53-151 | one whole record byte by byte |
| `ClientHello.BodyRoundTrip` | common/ja3/parser.go:195-278 | parsing an encoded extension body contributes exactly its content |
| `ClientHello.BlockRoundTrip` | common/ja3/parser.go:155-287 | parsing an encoded extension block collects all extensions in order |
| `ClientHello.CiphersRoundTrip` | common/ja3/parser.go:117-151 | cipher suites, compression and extensions are recovered |
| `ClientHello.HandshakeRoundTrip` | common/ja3/parser.go:85-151 | version, cipher suites and extensions of any well-formed handshake are recovered |
| `ClientHello.RecordRoundTrip` | common/ja3/parser.go:53-82 | the same from a record followed by anything |
| `ClientHello.AdvanceNeverWraps` | common/ja3/parser.go:179-280 | for any block of a record the 16-bit sum `4+exLen` does not wrap and the slice strictly shrinks the input |
| `ClientHello.CollectTypes` | common/ja3/parser.go:186-189 | the extension order is recovered |
| `ClientHello.CollectFinds` | common/ja3/parser.go:197-286 | with no repeated type, each field holds its extension's content |
| `ClientHello.Parser.AppendWords` | common/ja3/parser.go:266-277 | the list loop, including its out-of-range panic, as specified |
| `ClientHello.Parser.ReadWords` | common/ja3/parser.go:134-137 | the words in order |
| `ClientHello.Parser.ReadBody` | common/ja3/parser.go:195-278 | one extension, every branch |
| `ClientHello.Parser.ReadExtensions` | common/ja3/parser.go:155-287 | the loop that re-slices the block, errors included |
| `ClientHello.Parser.ReadHandshake` | common/ja3/parser.go:85-151 | the error or all fields after success; after an error, which of version and cipher suites are already filled |
| `ClientHello.Parser.ReadSegment` | common/ja3/parser.go:53-82 | the error or all fields after success; after an error, which of version and cipher suites are already filled |

## Left out

- gRPC streams, contexts, tickers and observer channels: a tick and a batch of events are inputs; events that an overfull observer drops are simply not in a batch.
- Real sockets, `setsockopt`, `recvmsg`, `sendmsg`, dialer control functions: foreign calls; the kernel is a sequence of typed records, a dial is a free choice.
- kTLS key derivation and re-keying: a key update succeeds or fails by oracle; connections without kernel offload and `WaitReadBuffer` are not part of this model.
- `selectInterfaces` and the serial packet listeners: filters and a loop like the one of `DialSerialNetwork`.
- ClientHello error numbers: which numbered length check complains is modelled, but only accepted, refused and panicking segments are characterised.
- Memory limits when a hostile geosite file declares huge lengths: the model reads what is there and reports an error at the end.
- GeositeIO.WriteOpenRead: files of 2^63 bytes or more are reported as too long instead of read, because offsets are 64-bit there.
- `dns/transport_manager.go` Create, Remove and default server, and `Close` of both managers: the index results are stated on the outbound manager before `Close`.
- OutboundIndex.Manager.Create: registry, start and close errors are parameters, and the part of Create after the lock is released is not interleaved with other calls.
- NestedQueries.SomeCallCanStepIff: a call waits for every nested call it starts; a dialing race that gives up on a nested query is not modelled, and neither are answers from the cache that end a call early.
- DnsCache.Exchange: no OPT records, EDNS trimming or HTTPS address filtering; the stored message is a value, so the sharing of a stored message with the response returned on a miss, which the caller could change in place, is not modelled.
- DnsCache.Cache.Load: times are whole nanoseconds, so the rounding of seconds through floating point is not modelled; eviction by the LRU is the step `Forget`.
- StartScheduler.StartOutbounds: whether Start fails is a property of the tag, so two outbounds of one tag fail alike.
- DnsRouting.Resolve: rule matching, address limits and upstream answers are oracles; reject methods are default and drop; a transport given in the options bypasses the rules and is not modelled; Lookup's client is an oracle.
- DnsRouting.Lookup: that a rejected lookup leaves no addresses is taken from the client, which returns none with an error.
- JA3 formatting and hashing of a parsed ClientHello: string building and MD5.
- ConnectionReplay.Subscribe: closing times that read as the Unix epoch in milliseconds are excluded, because the client takes 0 for "open"; counters do not wrap at 64 bits.
- Rule matching in `route/rule`, sniffing in `route/route.go`, option parsing, logging, CLI commands and wiring.
