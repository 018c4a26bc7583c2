# Verified model of the trading platform's durable core

A Dafny model of the parts of the repository whose promises are about crashes, retries, order and exact
arithmetic. `dafny verify dfyconfig.toml` checks every file.

**The OMS journal.** `Utf8`, `JsonString`, `JsonNumber`, `JsonObject` and `JsonParser` model the strict JSON
printer and cursor parser. `JsonGrammar` states the grammar of sections 2 to 7 of RFC 8259 on its own and proves
that the parser reads exactly its texts, with their values; UTF-8 is that of section 4 of RFC 3629. `JournalEvent`
prints and reads the 34 fields of an event. `Replay` and `ArchiveCodec` model the bounded replay of plain files and of
gzip archives, which section 2.2 of RFC 1952 makes a series of members. `JournalModel` is the journal as a state
machine: a file with a synced length, a bounded backlog, a sticky poison flag. `Journal` is the class itself;
every write, sync, path check and read in it may fail at any time, and a failed write may leave any beginning of
a record. `JournalRuns` follows whole runs with crashes that cut the file anywhere at or behind the synced
length, and `JournalReplay` says what a file of plain or gzip records gives on replay. `JournalCalls` ties every
call and the answer it gave to a step of such a run, `JournalCrashes` says what is left to replay after crashes,
and `JournalRoundTrip` puts the event codec and the journal together: what comes back of any calls when nothing
fails, and of any number of lives that end in crashes.

**At-most-once protocols.** `StrategyGateway` is the per-key store of immutable marker files, with process death
between any two steps and power loss that may drop every directory entry that was not synced. `OwnerResume` is
the checkpointed Resume slice of a Gateway maintenance transaction. `DriverSwitch` is the audited driver switch
with its rollback branches.

**Fast forms against simple ones.** `SegmentCache`, `Attribution` and `Producers` model the verified segment
cache, the producer chains and the credit for commands. `Custody` and `CustodyScan` model the replay of a quote
segment, the inventory of one window and the single pass over three. `FreshnessGrid` models the bisected
freshness grid, `BtcEntry` the pruned reservation list.

**Exact arithmetic and policy meaning.** `PriceGrid` is the unique decode of a stored price under any monotone
rounding, `ExecutionGrid` the gcd grid, `EgressPolicy` the packet meaning of the generated and read-back rules.

Operations that change state are methods of classes, proved against specification functions and step relations;
what the source promises is then proved about those. Failures of the environment are nondeterministic choices, and
a ghost counter of them makes the outcome of an undisturbed call exact.
Two promises do not hold as one might first state them, and are given with their exact conditions:

- A grid cell of the TOP feed is counted exactly when the events known by then make it fresh, unless it lies before
  the epoch, some relevant event is known by then, and the state is not usable: the marker -1 for "not fresh" is not
  below such a cell time, so the cell is counted. Both directions hold for every cell and for the count of a window
  (`FreshnessGrid.GoodIsFresh`, `FreshnessGrid.ReplayStream`). A window whose grid begins at the epoch or later has
  no such cell, and every other window with a cell has a stream that is miscounted
  (`FreshnessGrid.NegativeGridMiscounts`).
- Openings half an hour apart leave at most two in an hour whose beginning is not included. With both ends
  included an hour holds three exactly when openings stand at its beginning, its middle and its end, and never more
  (`BtcEntry.AtMostTwoPerHour`, `BtcEntry.ClosedHourHoldsThree`). Three allowed attempts get there from any time on
  (`BtcEntry.OpenThree`).

## Model

| member | source | states |
|---|---|---|
| `Utf8.RawLengthIsCharLength` | HeptaTrade/oms_journal.cpp:208-250 | the lead-octet and code-point arithmetic accepts exactly the multi-octet alternatives of the RFC 3629 grammar, with their lengths |
| `Utf8.EncodedPointIsOneChar` | HeptaTrade/oms_journal.cpp:182-206 | the octets appended for a scalar value are one grammatical UTF8-char whose collected code point is that value |
| `JsonString.EscapeJson` | HeptaTrade/oms_journal.cpp:1218-1246 | the escaping loop computes the octet-wise escape of the whole string |
| `JsonString.EscapedIsPrintable` | HeptaTrade/oms_journal.cpp:1218-1246 | escaped text holds no control octet, so no raw newline |
| `JsonString.StringRoundTrip` | HeptaTrade/oms_journal.cpp:252-309 | parsing the quoted escape of an octet string succeeds exactly when the string is valid UTF-8, and then gives that string and everything after it |
| `JsonString.ParsedStringIsValid` | HeptaTrade/oms_journal.cpp:252-309 | whatever the string parser accepts is valid UTF-8, escapes and surrogate pairs included |
| `JsonNumber.NumberScans` | HeptaTrade/oms_journal.cpp:311-350 | every number of the RFC 8259 grammar is scanned to its end, whatever delimiter follows |
| `JsonNumber.ScannedIsNumber` | HeptaTrade/oms_journal.cpp:311-350 | whatever the scanner consumes is a number of the grammar |
| `JsonNumber.ReadMagnitude` | HeptaTrade/oms_journal.cpp:440-446 | the overflow-guarded digit loop gives the exact value when it is within the limit and refuses otherwise, never by wrapping |
| `JsonNumber.ReadInteger` | HeptaTrade/oms_journal.cpp:427-454 | an integer field is read exactly when it is spelled as an integer that fits the width, the most negative value included |
| `JsonNumber.IntRoundTrip` | HeptaTrade/oms_journal.cpp:1253-1274 | a printed integer is a JSON number and reads back as itself exactly when it fits the width |
| `JsonObject.ObjectRoundTrip` | HeptaTrade/oms_journal.cpp:368-411 | a printed flat object with distinct keys parses exactly when all its strings are UTF-8, and gives the printed fields |
| `JsonGrammar.StringMeans` | HeptaTrade/oms_journal.cpp:166-309 | some octets are read as a string with a value exactly when the string grammar of RFC 8259 gives them this value: short escapes, hex digits of either case, the scalar value of a surrogate pair, raw UTF-8 |
| `JsonGrammar.DocumentMeans` | HeptaTrade/oms_journal.cpp:131-411 | a text is read as some fields exactly when the object grammar gives it those fields: white space between all tokens, literals, nested arrays and objects less than 64 deep, no key twice in one object, nothing behind it |
| `JsonParser.JsonObjectParser.ParseHexQuad` | HeptaTrade/oms_journal.cpp:166-180 | the cursor loop agrees with the specified prefix of four hex digits |
| `JsonParser.JsonObjectParser.ParseRawUtf8` | HeptaTrade/oms_journal.cpp:208-250 | the cursor consumes exactly the specified octets and appends them |
| `JsonParser.JsonObjectParser.ParseString` | HeptaTrade/oms_journal.cpp:252-309 | the cursor parser gives the value and rest of the specified string parse, or fails with it |
| `JsonParser.JsonObjectParser.ParseNumber` | HeptaTrade/oms_journal.cpp:311-350 | the cursor parser stops where the specified scanner stops, or fails with it |
| `JsonParser.JsonObjectParser.ParseArray` | HeptaTrade/oms_journal.cpp:352-366 | the element loop agrees with the specified array parse at every depth, with its limit of 64 |
| `JsonParser.JsonObjectParser.ParseObject` | HeptaTrade/oms_journal.cpp:368-389 | the member loop agrees with the specified object parse, duplicate keys refused |
| `JsonParser.JsonObjectParser.ParseValue` | HeptaTrade/oms_journal.cpp:391-411 | dispatch on the first octet agrees with the specified value parse |
| `JsonParser.JsonObjectParser.Parse` | HeptaTrade/oms_journal.cpp:131-138 | a whole document is accepted exactly when nothing but white space surrounds one object |
| `JournalEvent.ParseJsonLine` | HeptaTrade/oms_journal.cpp:1313-1392 | reading a line with the cursor parser is the specified reading of its fields; the next three rows say what that is |
| `JournalEvent.AnyFieldsReadBack` | HeptaTrade/oms_journal.cpp:1313-1392 | a line with any of the 34 fields, in any order and among any others, is read exactly when its strings are UTF-8, version, client id and event type are acceptable; each field comes back as printed, a missing one as its literal default, and a single request id as both |
| `JournalEvent.AnyTextIsRead` | HeptaTrade/oms_journal.cpp:131-1392 | the same for every text of the object grammar that holds those fields, whatever its white space, escapes, nested values and other members |
| `JournalEvent.WrongKindIsRefused` | HeptaTrade/oms_journal.cpp:418-473 | a line is refused when a field of an event has a value of another kind, or an integer that does not fit its width |
| `JournalEvent.EventRoundTrip` | HeptaTrade/oms_journal.cpp:1248-1392 | a built line is read back exactly when the event is storable, and gives the event up to schema version and request ids |
| `JournalEvent.RebuildsSameLine` | HeptaTrade/oms_journal.cpp:1248-1311 | rebuilding the line from the event that was read gives the same line |
| `Replay.ReplayIgnoresChunking` | HeptaTrade/oms_journal.cpp:1115-1174 | however a stream is cut into chunks, the collector ends with the verdict and the events of splitting the whole stream at newlines |
| `Replay.AcceptedStreams` | HeptaTrade/oms_journal.cpp:1117-1173 | replay accepts exactly the series of complete, bounded, parsable records within the record budget, and delivers every event in order |
| `ArchiveCodec.Collector.Collect` | HeptaTrade/oms_journal.cpp:1119-1165 | the callback over one buffer equals feeding its octets one by one, the pending record bounded before it grows |
| `ArchiveCodec.Collector.Cut` | HeptaTrade/oms_journal.cpp:1127-1155 | a newline ends the pending record, which is taken, or refused for its length, the count or its text, in this order |
| `ArchiveCodec.ReadPlain` | HeptaTrade/oms_archive_codec.h:52-78 | whatever the read sizes, the collector ends as if given the whole file; every refusal but I/O is the file's own |
| `ArchiveCodec.ReadGzip` | HeptaTrade/oms_archive_codec.h:79-123 | terminates by a measure on members, input and budget left; succeeds, I/O apart, exactly on readable archives, with the events of the decoded content |
| `ArchiveCodec.MembersJoin` | HeptaTrade/oms_archive_codec.h:79-123 | a series of members stays one when members follow: contents and counts add up |
| `ArchiveCodec.GzipReader.Refill` | HeptaTrade/oms_archive_codec.h:87-94 | input is refilled only when empty, keeps the cursor exact and does not raise the measure |
| `ArchiveCodec.GzipReader.Deliver` | HeptaTrade/oms_archive_codec.h:60-65 | the decoded budget is charged before the collector sees the octets |
| `ArchiveCodec.GzipReader.Round` | HeptaTrade/oms_archive_codec.h:105-121 | one inflate round keeps the reader exact and lowers the measure, or fails only on an unreadable archive |
| `Journal.OmsJournal.constructor` | HeptaTrade/oms_journal.cpp:606-688 | opening on an empty, newline-ended or archived file starts from a synced file; only an empty one has a known capacity |
| `Journal.OmsJournal.PathIsPinned` | HeptaTrade/oms_journal.cpp:512-531 | a failed path check poisons and changes nothing else |
| `Journal.OmsJournal.WriteOctets` | HeptaTrade/oms_journal.cpp:549-569 | short writes add up to the whole record, or a beginning of it stays and the journal is poisoned |
| `Journal.OmsJournal.Persist` | HeptaTrade/oms_journal.cpp:549-587 | success means the whole record, and for a durable one a sync behind it; failure poisons |
| `Journal.OmsJournal.Acknowledge` | HeptaTrade/oms_journal.cpp:588-603 | the record counts as written; a known capacity stays exact in decoded octets, records and stored octets, for plain and for gzip storage, or becomes unknown on overflow, which counts as a failure for gzip |
| `Journal.OmsJournal.WriteLine` | HeptaTrade/oms_journal.cpp:533-604 | one record is wholly in the file, synced if durable, or not acknowledged; when nothing fails it is acknowledged exactly when storage is plain, or the capacity is known and a gzip member can be made |
| `Journal.OmsJournal.FlushOne` | HeptaTrade/oms_journal.cpp:718-730 | one buffered line moves into the file with its exact byte accounting, or stays |
| `Journal.OmsJournal.FlushBuffered` | HeptaTrade/oms_journal.cpp:713-733 | a prefix of the backlog moves into the file in order, nothing else changes |
| `Journal.OmsJournal.MoveFront` | HeptaTrade/oms_journal.cpp:739-740 | moving the queue's front into the buffer keeps the backlog as it is |
| `Journal.OmsJournal.FlushQueued` | HeptaTrade/oms_journal.cpp:735-747 | as a flush, through the queue; success leaves no backlog; when nothing fails it ends early only before a line that gzip storage cannot take |
| `Journal.OmsJournal.FlushAhead` | HeptaTrade/oms_journal.cpp:945-947 | in the synchronous mode, or with the queue flushed for critical records, success leaves no backlog; otherwise nothing happens |
| `Journal.OmsJournal.QueueLine` | HeptaTrade/oms_journal.cpp:888-907 | a line is admitted exactly when both caps leave room, and then is the last of the backlog |
| `Journal.OmsJournal.Append` | HeptaTrade/oms_journal.cpp:976-1034 | an accepted event takes an append step, behind the whole backlog in the modes that keep the order; a critical one in synchronous mode leaves no backlog; any other event changes nothing but a failed path check |
| `Journal.OmsJournal.WriteCritical` | HeptaTrade/oms_journal.cpp:1001-1012 | a critical line is written past the backlog behind a sync barrier, in the modes that keep the order behind all of it, or is not acknowledged |
| `Journal.OmsJournal.FlushQueuedLine` | HeptaTrade/oms_journal.cpp:1024-1033 | after admission the synchronous mode flushes everything exactly when kind, size or age asks for it; otherwise nothing is written |
| `Journal.OmsJournal.AppendDurablePair` | HeptaTrade/oms_journal.cpp:925-974 | both events are checked before either is written; Committed only for two accepted critical events |
| `Journal.OmsJournal.WritePair` | HeptaTrade/oms_journal.cpp:941-973 | Committed means both records in order and synced; any failure after the first octet poisons |
| `Journal.OmsJournal.ReadSnapshot` | HeptaTrade/oms_journal.cpp:1112-1177 | the events of a replayable file, or nothing for an I/O failure or a file that is not replayable |
| `Journal.OmsJournal.Replay` | HeptaTrade/oms_journal.cpp:1091-1210 | flushes and syncs first; undisturbed, it returns the events exactly when the file is replayable; pending lines in gzip storage refuse it |
| `Journal.OmsJournal.Validate` | HeptaTrade/oms_journal.cpp:1112-1203 | the part behind the sync barrier, with the snapshot re-checked after reading |
| `Journal.OmsJournal.Recount` | HeptaTrade/oms_journal.cpp:1197-1202 | an accepted replay makes the capacity known and exact, for plain and for gzip storage |
| `JournalModel.CountsMore` | HeptaTrade/oms_journal.cpp:588-600 | one record more is one decoded line more, so adding its octets and one record keeps the counters exact |
| `JournalCalls.Perform` | HeptaTrade/oms_journal.cpp:713-1210 | every call, whatever fails in it, is the step of a run that its answer tells, and keeps the queue invariant: exact pending bytes, both caps, written then buffered then queued lines in admission order |
| `JournalCalls.PerformAll` | HeptaTrade/oms_journal.cpp:713-1210 | every series of calls is a run whose steps are the calls with their answers and whose every state satisfies that invariant |
| `JournalCalls.RecordedLines` | HeptaTrade/oms_journal.cpp:888-1034 | the lines admitted and written in such a run are those of the events whose calls reported success, in call order |
| `JournalCalls.KindsPartition` | HeptaTrade/oms_journal.cpp:925-1034 | the events of the successful calls are the admitted ones and the durable ones, none lost or counted twice |
| `JournalRuns.SyncedSurvives` | HeptaTrade/oms_journal.cpp:533-604 | nothing that was synced is ever lost, whatever fails and however often the process dies |
| `JournalRuns.CommittedSurvives` | HeptaTrade/oms_journal.cpp:925-1013 | a successful critical append in sync mode and a committed pair lie whole and in order inside the synced file after every later step, crashes included |
| `JournalRuns.FirstFailedLeaves` | HeptaTrade/oms_journal.cpp:937-953 | a pair that failed on its first record leaves whole backlog records and at most a beginning of a record that is not the second, which poisons |
| `JournalRuns.PoisonIsFinal` | HeptaTrade/oms_journal.cpp:533-566 | once poisoned, until the process dies, no call adds an octet or reports success |
| `JournalRuns.FaultFreeRun` | HeptaTrade/oms_journal.cpp:888-1034 | a fault-free run of plain storage admits and writes exactly what its calls reported, each kind in call order |
| `JournalRuns.OrderedRun` | HeptaTrade/oms_journal.cpp:935-1034 | in the synchronous mode, or with the queue flushed for critical records, file and backlog of a fault-free run hold the lines of all successful calls in call order |
| `JournalReplay.RecordsHold` | HeptaTrade/oms_journal.cpp:533-604 | a file of whole records with acknowledged ones behind it holds the old lines and then theirs, for gzip storage one member each |
| `JournalReplay.ReplayableMeans` | HeptaTrade/oms_journal.cpp:1091-1177 | a file of whole records, plain or gzip, is replayable exactly when every line it holds passes the size and parse checks and stored octets, members, decoded octets and records are within their budgets |
| `JournalReplay.AnswersExactly` | HeptaTrade/oms_journal.cpp:888-1034 | in a fault-free run a direct append succeeds exactly when storage is plain, or the capacity is known by then and a member can be made; a queued one exactly when both caps leave room; a pair that is taken is committed |
| `JournalReplay.ReplayDelivers` | HeptaTrade/oms_journal.cpp:1091-1210 | after any fault-free run on any file of whole records, plain or gzip, a replay with nothing pending in gzip storage delivers what was there and the event of every record added, of each kind in call order and in the order-keeping modes all in call order; it succeeds exactly when the old lines are good and all of it is within the budgets |
| `JournalCrashes.CutIsGood` | HeptaTrade/oms_journal.cpp:533-604 | however a crash cuts the file, every complete line that is left was size- and parse-checked, torn records included |
| `JournalCrashes.CommittedStay` | HeptaTrade/oms_journal.cpp:533-1034 | through any failures and crashes the file stays a file of good records, and the committed lines come among its synced lines in call order |
| `JournalCrashes.GoodVerdict` | HeptaTrade/oms_journal.cpp:1115-1174 | a plain file opened on good records is replayable exactly within its byte and record budgets |
| `JournalCrashes.CommittedComesBack` | HeptaTrade/oms_journal.cpp:606-1210 | after any failures and any crashes that left a file to reopen, replay delivers the event of every record and every committed one among them in call order; undisturbed, it is refused exactly beyond a budget |
| `JournalRoundTrip.LineIsOneLine` | HeptaTrade/oms_journal.cpp:1248-1311 | an encodable event is built as one line without a raw newline |
| `JournalRoundTrip.Open` | HeptaTrade/oms_journal.cpp:606-688 | the journal's own codec meets everything the journal assumes of it |
| `JournalRoundTrip.KindsComeBack` | HeptaTrade/oms_journal.cpp:909-1210 | the events of the records of a file are the admitted and the durable events merged, each kind in its own order, up to normalisation |
| `JournalRoundTrip.RunReturns` | HeptaTrade/oms_journal.cpp:909-1210 | the replay at the end of a fault-free run of calls, on plain or gzip storage, returns what was in the file and what the answers promise |
| `JournalRoundTrip.RunAnswers` | HeptaTrade/oms_journal.cpp:888-1034 | in such a run a direct append answers true exactly when the event is accepted and, in gzip storage, the capacity is known and its member can be made; a pair answers Committed exactly for two accepted critical events |
| `JournalRoundTrip.AppendAndReplay` | HeptaTrade/oms_journal.cpp:888-1210 | from any existing file, plain or gzip, any calls and then a replay: when nothing failed and no line was pending in gzip storage, the events that come back are those of the file and those whose calls reported success, each kind in call order and in the order-keeping modes all in call order, refused exactly when a line of the file is bad or a budget is exceeded; and the direct calls answered as they should |
| `JournalRoundTrip.Live` | HeptaTrade/oms_journal.cpp:606-1034 | one life with any calls and failures and a crash keeps every durable event of before and adds its own |
| `JournalRoundTrip.LiveAll` | HeptaTrade/oms_journal.cpp:606-1034 | over any number of lives the durable events of all of them are among the lines that are left, in call order |
| `JournalRoundTrip.CrashAndReplay` | HeptaTrade/oms_journal.cpp:606-1210 | after any number of lives ended by crashes, replay of a file that can be reopened returns every event whose call answered that it is durable, in call order; with nothing failing in it, it is refused exactly beyond a budget |
| `StrategyGateway.CallIsConsistent` | research/strategy_gateway.py:408-468 | a native call that agrees with the durable records keeps the whole history at most once and for one command |
| `StrategyGateway.StaysConsistent` | research/strategy_gateway.py:116-153 | adding records, or losing records that were not durable, never contradicts a native call already made |
| `StrategyGateway.KeyStore.Enter` | research/strategy_gateway.py:213-236 | taking the key's lock makes every entry that is there durable, or the operation ends |
| `StrategyGateway.KeyStore.Read` | research/strategy_gateway.py:97-113 | a record is read whole, found absent, or refused while it has two links |
| `StrategyGateway.KeyStore.Publish` | research/strategy_gateway.py:116-153 | only success says the record is there with these octets and durable; no other octets ever appear under a name |
| `StrategyGateway.KeyStore.Link` | research/strategy_gateway.py:133-153 | a record appears complete or not at all, wherever the publication stops |
| `StrategyGateway.KeyStore.WriteAll` | research/strategy_gateway.py:138-143 | partial writes leave a beginning of the data in the temporary file |
| `StrategyGateway.KeyStore.PrepareIntent` | research/strategy_gateway.py:408-438 | a returned command is the durable one of a durable intent with exactly the asked fields and key; when nothing fails, a used key answers its command exactly for the same fields in a usable record, and a fresh key is prepared exactly when nothing is left over, the binding is one and the intent has not expired |
| `StrategyGateway.KeyStore.FirstPreparation` | research/strategy_gateway.py:422-438 | the intent is durable before the native prepare is called, and the command is then published; it succeeds when nothing fails |
| `StrategyGateway.KeyStore.AdoptPreparation` | research/strategy_gateway.py:440-447 | adoption makes the candidate the durable command of the stored intent; when nothing fails, exactly for a well-formed command where no other one is recorded |
| `StrategyGateway.KeyStore.SubmitOnce` | research/strategy_gateway.py:449-463 | a success inspects when the marker was there and otherwise submits, for the stored intent and command; when nothing fails, exactly with a usable record and a marker of this command or an intent that has not expired |
| `StrategyGateway.KeyStore.Send` | research/strategy_gateway.py:457-463 | the marker is durable before the native submit, which is the first and in time; when nothing fails it is made exactly when the intent has not expired |
| `StrategyGateway.KeyStore.InspectCommand` | research/strategy_gateway.py:465-468 | an inspect is for the stored intent and command, and when nothing fails is made exactly when they are usable |
| `StrategyGateway.Serve` | research/strategy_gateway.py:382-468 | over every order of requests, wherever each ends and with power losses between them: at most one native prepare, at most one native submit and that in time, one command, fields and binding for every submit and inspect; all prepares that were answered asked for the same fields and got the same command |
| `OwnerResume.StandingCatalogShowsAll` | scripts/activate_prepared_gateway.py:735-758 | a catalog that passes the transition check once every Resume was sent shows every owner one generation further and out of recovery |
| `OwnerResume.SendIsFirst` | scripts/activate_prepared_gateway.py:688-701 | an owner whose checkpoint shows no Resume has had none sent |
| `OwnerResume.Transaction.Save` | scripts/activate_prepared_gateway.py:56-71 | success means the checkpoint is the present state; failure leaves the old one or the new one |
| `OwnerResume.Transaction.CheckTransitionCatalog` | scripts/activate_prepared_gateway.py:735-758 | an accepted catalog is on record and, when all Resumes were sent, shows every owner resumed |
| `OwnerResume.Transaction.CompareCatalog` | scripts/activate_prepared_gateway.py:735-758 | the comparison loop accepts exactly the catalogs that may stand next to the expected one: the same tokens, watches and unsent owners unchanged, sent owners resumed |
| `OwnerResume.Transaction.ComparableCatalog` | scripts/activate_prepared_gateway.py:728-732 | only a known watch may be missing, from its own expiry on |
| `OwnerResume.Transaction.SendResume` | scripts/activate_prepared_gateway.py:688-701 | the Resume is sent only after a checkpoint that says so, for a lease that ends before the recorded deadline |
| `OwnerResume.Transaction.SyncConfirmedGeneration` | scripts/activate_prepared_gateway.py:514-539 | only the old local generation is moved, by exactly one |
| `OwnerResume.Transaction.ConfirmResume` | scripts/activate_prepared_gateway.py:702-725 | success means the next generation was seen in the catalog and then synced locally |
| `OwnerResume.Transaction.ResumeOwner` | scripts/activate_prepared_gateway.py:673-725 | success means the owner is confirmed and synced, whether the Resume was sent now or in an earlier run |
| `OwnerResume.Transaction.BindOwners` | scripts/activate_prepared_gateway.py:296-339 | bound records have the local generation, and the result is the earliest of their expiries |
| `OwnerResume.Transaction.FenceOwners` | scripts/activate_prepared_gateway.py:1067-1098 | the fence may only bring the deadline forward, to no later than any bound record expires |
| `OwnerResume.Transaction.ResumeAll` | scripts/activate_prepared_gateway.py:1143-1146 | success means every owner is done and one catalog shows them all |
| `OwnerResume.Transaction.StartController` | scripts/activate_prepared_gateway.py:1152-1159 | a start is issued only when every owner is done, after its own checkpoint and for a controller that was running before; success records it; when nothing fails it succeeds exactly with enough of the deadline left |
| `OwnerResume.Transaction.StartControllers` | scripts/activate_prepared_gateway.py:1147-1159 | success means every controller that was running before is recorded as started |
| `OwnerResume.Transaction.SettleStart` | scripts/activate_prepared_gateway.py:1016-1027 | a start that was requested when the last run ended is observed, never repeated |
| `OwnerResume.Transaction.Maintain` | scripts/activate_prepared_gateway.py:1013-1159 | one run from the checkpoint keeps every promise, wherever it ends |
| `OwnerResume.MaintainRepeatedly` | scripts/activate_prepared_gateway.py:673-1159 | over any number of runs: at most one Resume per owner, no start before every owner is confirmed and synced, none of a controller that was not running before or is recorded as started, a local generation that is the old one or, once the catalog has confirmed it, the next, a deadline that never grows |
| `DriverSwitch.AuditedMore` | scripts/activate_prepared_driver.py:956-1008 | a stop that directly follows the accepted audit of the process it stops keeps the history audited |
| `DriverSwitch.Upgrade.EnsureGuard` | scripts/activate_prepared_driver.py:926-934 | success means the guard is restored in the file and in the service manager; when nothing fails it succeeds exactly when the guard file is one of the two known ones |
| `DriverSwitch.Upgrade.FreshAudit` | scripts/activate_prepared_driver.py:956-1008 | within three attempts, success is an accepted audit of the driver that is still running; when nothing fails, exactly when it runs with its guard |
| `DriverSwitch.Upgrade.StartVerified` | scripts/activate_prepared_driver.py:1010-1062 | success means the wanted release was observed running with the guard restored; when nothing fails, exactly when the loaded drop-in is of that release and the guard is restored |
| `DriverSwitch.Upgrade.Switch` | scripts/activate_prepared_driver.py:1064-1103 | success means the replacement runs from its own drop-in with the guard restored; the stop had its own audit; when nothing fails it succeeds exactly when the expected driver ran with its guard from the expected drop-in |
| `DriverSwitch.Upgrade.StartReplacement` | scripts/activate_prepared_driver.py:1081-1100 | the drop-in is replaced only while nothing runs; success means the replacement runs from it, and when nothing fails it succeeds |
| `DriverSwitch.Upgrade.RollBack` | scripts/activate_prepared_driver.py:1118-1167 | a rollback other than held means the original runs from the original drop-in; when nothing fails in it, it is held exactly when guard file, drop-in or unit are in a state that is not known |
| `DriverSwitch.Upgrade.RestoreStopped` | scripts/activate_prepared_driver.py:1143-1160 | a unit that does not run gets the original drop-in back and is started; when nothing fails, exactly when the drop-in was one of the two known ones |
| `DriverSwitch.Upgrade.Maintain` | scripts/activate_prepared_driver.py:1105-1183 | ACTIVATED, rolled back and held each mean what the receipt says, in every run with arbitrary operation failures; when nothing fails the candidate is activated, and when only the switch failed and left the unit settled the original is restored with its guard |
| `SegmentCache.SplitJoins` | scripts/hepta_decision_attribution.py:230 | complete lines split the same with or without what follows them, for every kind of line end |
| `SegmentCache.SplitMeans` | scripts/hepta_decision_attribution.py:230 | the lines join to the blob, each ends in its line end and has none before it |
| `SegmentCache.OneSplit` | scripts/hepta_decision_attribution.py:230 | and no other list of lines does |
| `SegmentCache.FullParseMeans` | scripts/hepta_decision_attribution.py:222-237 | a full parse is exactly this, said of the raw octets: the longest part that ends in a newline, one record per line in order, each with the hash and the length of everything up to its end |
| `SegmentCache.AppendedParse` | scripts/hepta_decision_attribution.py:222-237 | a full parse of a grown file is the old parse followed by the parse of what was appended |
| `SegmentCache.VerifiedSegmentCache.ParseLines` | scripts/hepta_decision_attribution.py:230-236 | the loop with its running hash gives the specified records and places |
| `SegmentCache.VerifiedSegmentCache.Reparse` | scripts/hepta_decision_attribution.py:222-237 | an extended file gives its full parse, a replaced, truncated or altered one nothing |
| `SegmentCache.VerifiedSegmentCache.Read` | scripts/hepta_decision_attribution.py:216-241 | whenever it returns, the result is a full parse of the current file, with one record per complete line; it returns exactly when it may; a failed read leaves the entries as they were; all the octets held never exceed the budget |
| `SegmentCache.VerifiedSegmentCache.Store` | scripts/hepta_decision_attribution.py:237-241 | an entry is kept exactly when the octets held for it and all other paths stay within the budget |
| `Attribution.GatheredIsExact` | scripts/hepta_decision_attribution.py:357-366 | the final removal of spoilt commands leaves exactly the earned credits |
| `Attribution.CreditIgnoresOrder` | scripts/hepta_decision_attribution.py:327-366 | the credits do not depend on the order in which binding records are processed |
| `Attribution.OneAndOnlyOne` | scripts/hepta_decision_attribution.py:357-366 | with different witnesses a command is credited exactly when one and only one record names it and that one is complete |
| `Producers.GroupFiles` | scripts/hepta_decision_attribution.py:252-275 | grouping gives each producer its records in file order with their witnesses, and fails exactly on a file that mixes producers |
| `Sorting.SortPermutes` | scripts/hepta_decision_attribution.py:278 | sorting by sequence number loses and adds no record |
| `Producers.Verify` | scripts/hepta_decision_attribution.py:277-303 | a chain passes exactly when it is unbroken, of one manifest, in time and without conflict; the tables then hold every first record |
| `Producers.ConflictIsSeen` | scripts/hepta_decision_attribution.py:298-301 | comparing with the remembered record is comparing with all earlier ones |
| `Producers.TrailDetermines` | scripts/hepta_decision_attribution.py:272-275 | equal witnesses mean the same record of the same producer |
| `Producers.ParsedArePlaced` | scripts/hepta_decision_attribution.py:252-275 | segments parsed from files of different names have different witnesses for different records |
| `Producers.JudgeBinding` | scripts/hepta_decision_attribution.py:335-362 | looking up the tables decides completeness and causal order as the records themselves do |
| `Producers.Examine` | scripts/hepta_decision_attribution.py:341-356 | the checks in their order accept exactly a binding linked to and answered by its request, response and decision |
| `Producers.CreditMeans` | scripts/hepta_decision_attribution.py:306-367 | a credit exists exactly for a command named by one and only one counting record whose graph is complete, and is that record's |
| `Producers.CreditProducer` | scripts/hepta_decision_attribution.py:335-365 | the command loop of one producer enters each of its claims once |
| `Producers.VerifyAll` | scripts/hepta_decision_attribution.py:276-304 | all chains are verified before any credit is given |
| `Producers.VerifiedBindings` | scripts/hepta_decision_attribution.py:306-367 | fails exactly when some chain cannot be verified, and otherwise returns exactly the earned credits |
| `Custody.KeepAllMeans` | research/paged_crosshost_custody.py:124-129 | kept quotes exist exactly when no event has two prices, and are the earliest known of each event, of several as early the first |
| `Custody.OriginalSegment` | research/paged_crosshost_custody.py:71-142 | the replay loop accepts exactly the naturally ended segments and gives their proof and their kept quotes in event order |
| `Custody.SegmentKeepsEarliest` | research/paged_crosshost_custody.py:124-142 | the rows of a segment are the earliest quote of each of its events, once each, in event order, and no other list is |
| `Custody.RowsAreTaken` | research/paged_crosshost_custody.py:106-129 | every row of a segment is taken from one of its quote lines: event, expiry, hash and time as recorded, the price halfway between bid and ask, positive and not crossed |
| `Custody.CheckBody` | research/paged_crosshost_custody.py:97-136 | the requires of one line, by its kind, hold exactly for a good line |
| `Custody.CheckArchive` | research/paged_crosshost_custody.py:199-236 | succeeds exactly when every page names the page before it and every receipt its page and the receipt before it, the first ones the genesis; gives the last receipt and the prefixes of all pages |
| `Custody.PinsByPage` | research/paged_crosshost_custody.py:216-236 | pin 32 n + k of the archive is prefix k of page n |
| `CustodyScan.NoInventory` | research/paged_crosshost_custody.py:176-198 | an unreadable segment or first rows that cannot be scanned leave no inventory, whatever follows |
| `CustodyScan.CopiedOriginalInventory` | research/paged_crosshost_custody.py:144-257 | the one-window inventory computes exactly its specification |
| `CustodyScan.InventoryListsEarliest` | research/paged_crosshost_custody.py:186-247 | its rows are the earliest quote in the window of each event of all segments, once each, in event order |
| `CustodyScan.TakeRow` | research/paged_crosshost_singlepass.py:88-101 | one row is taken for every window, or some window conflicts or overflows for good |
| `CustodyScan.CheckWindows` | research/paged_crosshost_singlepass.py:35-47 | the loop with the end of the window before accepts exactly three bounded windows, disjoint and in order |
| `CustodyScan.CopiedOriginalMultiwindow` | research/paged_crosshost_singlepass.py:19-185 | the single pass succeeds exactly when the windows are three, bounded, disjoint and in order and the inventory of each alone succeeds, and yields the same proofs, head, counts and rows |
| `FreshnessGrid.BisectRight` | scripts/hepta_fx_source_evidence.py:165 | the bisection finds how many versions are known at a time |
| `FreshnessGrid.LastVersionIsPresent` | scripts/hepta_fx_source_evidence.py:146-159 | irrelevant events change nothing, so the last version tells the expiry of the present state |
| `FreshnessGrid.AfterMeans` | scripts/hepta_fx_source_evidence.py:89-145 | the simulated state is what the events say: the last market type, the last event that breaks or restores the connection, the last subscription and whether a loss of subscriptions follows it, and for each side the last quote of the current request that no reset follows |
| `FreshnessGrid.FreshMeans` | scripts/hepta_fx_source_evidence.py:146-156 | a market is fresh exactly when those events make it live, connected, subscribed, quoted on both sides, uncrossed and at most five seconds old |
| `FreshnessGrid.FirstMeans` | scripts/hepta_fx_source_evidence.py:157-158 | from the epoch on the first usable pair is the first entry at which it is |
| `FreshnessGrid.WindowMeans` | scripts/hepta_fx_source_evidence.py:70-77 | the rows in order are those of the window, each as often as it was there |
| `FreshnessGrid.GoodIsFresh` | scripts/hepta_fx_source_evidence.py:89-166 | a TOP cell is good exactly when the events known by then make it fresh, or it is misjudged; the two agree exactly when it is not misjudged |
| `FreshnessGrid.NegativeGridMiscounts` | scripts/hepta_fx_source_evidence.py:148-166 | every window whose grid begins before the epoch and has a cell has a stream that is counted wrongly |
| `FreshnessGrid.GoodAfterFirst` | scripts/hepta_fx_source_evidence.py:157-158 | a version still good at its own time is never before the first usable pair |
| `FreshnessGrid.Replay` | scripts/hepta_fx_source_evidence.py:89-159 | the event loop computes the specified versions and first usable pair, and fails exactly on a bad subscription |
| `FreshnessGrid.TakeEvent` | scripts/hepta_fx_source_evidence.py:89-145 | the branches for one event give its effect, and refuse exactly a bad subscription |
| `FreshnessGrid.Count` | scripts/hepta_fx_source_evidence.py:160-173 | the counting loop's totals, steady totals and longest run are those of the cells |
| `FreshnessGrid.CountsFresh` | scripts/hepta_fx_source_evidence.py:164-168 | the bisected count is the count of the cells that the events make fresh and of the misjudged ones |
| `FreshnessGrid.ReplayStream` | scripts/hepta_fx_source_evidence.py:62-188 | for either feed the full-window count equals the post-first-pair count; for TOP it exceeds the count of the cells that the events make fresh by exactly the misjudged cells, of which a grid from the epoch on has none; the first usable pair is told by the events |
| `BtcEntry.PruningIsInvisible` | scripts/hepta_btc_entry_policy.py:59-65 | dropping reservations an hour old changes no rate-limit verdict then or later, whichever command is ignored |
| `BtcEntry.WithoutMeans` | scripts/hepta_btc_entry_policy.py:84-86 | the ignored command has no reservation left, and every other one stays as often as it was there |
| `BtcEntry.InHourMeans` | scripts/hepta_btc_entry_policy.py:85-88 | the hour that ends at a time holds exactly the reservations later than 3600000 ms before it and not after it |
| `BtcEntry.HalfAnHourApart` | scripts/hepta_btc_entry_policy.py:85-88 | spaced openings are at least 1800000 ms apart |
| `BtcEntry.AtMostTwoPerHour` | scripts/hepta_btc_entry_policy.py:85-88 | spaced openings leave at most two in any hour whose beginning is not included |
| `BtcEntry.ClosedHourHoldsThree` | scripts/hepta_btc_entry_policy.py:85-88 | an hour with both ends included never holds more than three spaced openings, and three exactly when they stand at its beginning, middle and end |
| `BtcEntry.OpenThree` | scripts/hepta_btc_entry_policy.py:59-111 | three allowed attempts half an hour apart, from any time on, reach that case |
| `BtcEntry.RollingImpliesInterval` | scripts/hepta_btc_entry_policy.py:85-88 | with spaced openings the rolling limit fires only when the interval limit fires too |
| `BtcEntry.EntryControl.Validate` | scripts/hepta_btc_entry_policy.py:45-57 | the loop with its seen set accepts exactly bounded, named, distinct reservations of the past |
| `BtcEntry.EntryControl.Reserve` | scripts/hepta_btc_entry_policy.py:59-65 | a valid control without the command keeps what is recent and adds the reservation, any other stays; the list stays the history without a beginning too old to matter |
| `BtcEntry.ReservedIsValid` | scripts/hepta_btc_entry_policy.py:59-65 | after an allowed evaluation the list has room, so the second validation refuses exactly an unnamed command |
| `BtcEntry.EntryControl.Evaluate` | scripts/hepta_btc_entry_policy.py:67-111 | the verdict of the limits on the pruned list is the verdict on the whole history |
| `BtcEntry.EntryControl.Open` | scripts/hepta_btc_entry_policy.py:59-111 | the history grows by exactly this reservation when the command was allowed and is not listed, and is the same otherwise; openings stay half an hour apart, and none is made within the cooldown in milliseconds |
| `BtcEntry.NextIsAllowed` | scripts/hepta_btc_entry_policy.py:67-90 | half an hour after the last opening and without a cooldown no limit is in the way |
| `BtcEntry.OpenRepeatedly` | scripts/hepta_btc_entry_policy.py:45-111 | in every such run openings are spaced and no hour holds more than two |
| `PriceGrid.NoOtherTick` | research/import_legacy.py:493-498 | for any monotone rounding, a tick whose neighbours round elsewhere is the only one on the whole grid that rounds to the value |
| `PriceGrid.DecodableMeans` | research/import_legacy.py:479-499 | for any monotone rounding a value is decoded exactly when the tick nearest to it, ties to even, is the only one on the grid with this image and both are in bounds |
| `PriceGrid.DecodableFromGrid` | research/import_legacy.py:479-499 | for a monotone rounding less than half a tick off, exactly when it is the image of one tick only and both are in bounds |
| `PriceGrid.DecodePrice` | research/import_legacy.py:479-499 | an accepted tick is in range, rounds to the stored value and is alone in doing so; acceptance is decided by the nearest tick and its neighbours |
| `PriceGrid.SelectPrice` | research/import_legacy.py:663-673 | a price is accepted exactly when it is positive, exactly a tick in range, and its binary form decodes to that tick; no other tick then has its binary form |
| `PriceGrid.DecodesToItself` | research/import_legacy.py:663-673 | with monotone rounding the binary form of a grid price that decodes at all decodes to its own tick |
| `PriceGrid.SelectPrices` | research/import_legacy.py:636-684 | a source is accepted exactly when it has rows, not too many, and every price is accepted; two different accepted prices never collapse to one binary value |
| `ExecutionGrid.Bezout` | research/model_manifest.py:360 | the gcd divides both numbers and is a combination of them |
| `ExecutionGrid.UnitsAreExact` | research/model_manifest.py:357-359 | scaling to the finest decimal place is exact |
| `ExecutionGrid.GridIsCoarsest` | research/model_manifest.py:357-362 | tick and slippage are whole multiples of the grid, and every grid that holds both holds it |
| `ExecutionGrid.CoarsestIsUnique` | research/model_manifest.py:357-362 | there is only one coarsest grid, with one factor and one slippage |
| `ExecutionGrid.FindGrid` | research/model_manifest.py:351-365 | the result is the one coarsest common grid, refused exactly when its numbers leave the native bounds |
| `ExecutionGrid.ScaleBar` | research/model_manifest.py:458-470 | one bar is multiplied exactly when its prices are in bounds before and after |
| `ExecutionGrid.ScaleBars` | research/model_manifest.py:448-476 | accepted exactly when no bar is out of bounds and there are not too many; every price keeps its exact value and any two prices of any two bars their order |
| `EgressPolicy.RuleProjection` | scripts/hepta_broker_egress_policy.py:628-694 | the statement loop gives the projection of a rule, or refuses duplicates, strangers and missing parts |
| `EgressPolicy.ProjectionMeans` | scripts/hepta_broker_egress_policy.py:628-694 | a rule with a projection matches exactly the packets the projection describes |
| `EgressPolicy.VerifyTable` | scripts/hepta_broker_egress_policy.py:788-803 | the readback accepts exactly the expected rules, each once, in any order |
| `EgressPolicy.AcceptedTableMeans` | scripts/hepta_broker_egress_policy.py:697-803 | every accepted order leaves unprotected traffic alone and rejects every unauthorised UID on every protected port; an authorised UID passes exactly when its allow rule comes first |
| `EgressPolicy.GeneratedMeans` | scripts/hepta_broker_egress_policy.py:441-489 | the generated rules are accepted by the check and let exactly the authorised UIDs through |
| `EgressPolicy.Host.Apply` | scripts/hepta_broker_egress_policy.py:806-856 | success within the bounded attempts means the actual table was read back and verified; fewer failures than attempts do not prevent it |
| `EgressPolicy.Host.Execute` | scripts/hepta_broker_egress_policy.py:858-893 | a requested policy is applied verified, or the fallback leaves a verified deny-all table, or failure is reported; with fewer failures than attempts the outcome is the one that was asked for |
| `EgressPolicy.FallbackDeniesAll` | scripts/hepta_broker_egress_policy.py:876-893 | after a successful fallback no UID reaches TCP ports 4001, 4002, 7496 and 7497 of a loopback address, and all other traffic passes |

## Left out

- JournalEvent.EventRoundTrip: events with broker economics fields, and the text conversion of floating-point numbers, which are opaque number texts here.
- JournalRoundTrip.CrashAndReplay: plain storage only; a crash that cuts a gzip member leaves an archive that replay refuses.
- JournalEvent.AnyTextIsRead: a floating-point field is its number text, so its own range is not checked.
- JournalEvent.ParseJsonLine: lines with broker economics fields are refused, because the body that validates them is not part of this model.
- Journal.OmsJournal.WriteLine: interrupted system calls that are retried; 64-bit counters of gzip storage that overflow count as a failure.
- Journal.OmsJournal.Append: the list of critical event types is a parameter, and the age of the last flush is a free choice.
- Journal.OmsJournal.constructor: failures of opening, environment settings, and calls before opening or after closing.
- Journal: allocation failures, condition variables, the telemetry counters, and the adoption of externally validated capacity.
- ArchiveCodec.ReadGzip: zlib itself; a member decoder and an inflate step that may stop anywhere stand for it.
- Replay callbacks run outside the lock and are the list of events here.
- StrategyGateway.KeyStore.PrepareIntent: field normalisation, the JSON text of records and file ownership checks are parameters or free failures.
- OwnerResume.Transaction.BindOwners: scope, session and lease-time checks of a record are a free failure.
- OwnerResume.Transaction.FenceOwners: the replies to the recovery queries are one free answer.
- OwnerResume.Transaction.Maintain: the stop, release and native handoff parts of the transaction, and host inspection, are free failures; nothing else writes the controllers' local state.
- DriverSwitch.Upgrade.StartVerified: the polling loop and its progress evidence are one observation of the running driver.
- DriverSwitch.Upgrade.Maintain: spontaneous changes of the service between two operations, and death of the maintenance process.
- SegmentCache.VerifiedSegmentCache.Read: counters, and the hash is any injective function.
- Producers.VerifiedBindings: manifest and health files are parameters; the issue list is left out, and so are the constant fields of a credit.
- Custody.OriginalSegment: canonical JSON and hashes of one line are one reading function; prices are exact, without decimal context rounding.
- CustodyScan.CopiedOriginalMultiwindow: directory listing, file sizes and file modes are not modelled.
- Custody: independent price labels, which only compare fields of one outcome.
- FreshnessGrid.ReplayStream: the tick-by-tick quote object is a parameter, so its own freshness rule is not modelled; the counters of callbacks, foreign requests and renewals.
- BtcEntry.EntryControl.Evaluate: forecast, quote and cost checks are one flag. The history is every reservation that was made, so an expired command id may be reserved again.
- PriceGrid.DecodePrice: binary floating point itself; the conversion is any monotone function and stored values are exact reals.
- ExecutionGrid.FindGrid: the text form of the grid and its binary round trip.
- EgressPolicy.RuleProjection: a verdict that is not the last statement of its rule, which nft does not list.
- EgressPolicy.VerifyTable: the checks of the table and chain headers and of a rule's own scope, which are flat comparisons.
- EgressPolicy.GeneratedMeans: the text of the generated ruleset.
- Account observers, NAV and Flex parsing, release packaging, CI, systemd and connection scripts: input handling and flat validation.
