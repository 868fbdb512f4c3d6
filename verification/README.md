# Protocol simulation suite, verified

A Dafny model of the parts of the protocol simulation suite where correctness is not visible line by line: the SNMP
codec and MIB walk, the audit pipeline from the engine's reporter to the pruned table, the life of instances, ports
and captures with its lock table, and the wire framings and session machines of eight more protocols.

| file | what it models |
|---|---|
| `Wrappers`, `Bytes`, `Sequences`, `MailText` | result types, octets and fixed widths, slices, line text |
| `Ber`, `Mib`, `Snmp`, `SnmpBulk` | BER lengths, elements, integers, identifiers; the ordered walk; requests and responses; GETBULK against the standard |
| `Reporter` | the bounded queue, four posting tasks and three attempts of the engine's event reporter |
| `AuditTable`, `AuditWriter`, `AuditBatching`, `AuditService`, `AuditPages` | the audit table, runs of its single writer, when batching shows, the writer as a class, and reading it back |
| `EventPipeline` | all reporters and the writer together, in any interleaving |
| `Endpoints` | descriptors, deployment bindings, the engine's launch check, rule packages |
| `Captures`, `Lifecycle`, `Workloads`, `InstanceStore`, `LockTable` | capture files, interleaved instance tasks, the Agent's workloads beside them, the tables' transactions, the per-instance locks |
| `Memcached`, `Postgresql`, `Mysql`, `Mqtt`, `Mongodb`, `Dns`, `Smtp`, `Pop3` | framings, codecs and sessions |

Code that updates state in the source is a class or a method with loops here, proved equal to a function of its inputs
or its old state; the properties are lemmas about those functions. Protocols with interleaving tasks (`Reporter`,
`AuditWriter`, `EventPipeline`, `Lifecycle`, `Workloads`, `LockTable`) are step relations, and their main results hold
in every state of every run.

## What the proofs found

Each of these is a place where the obvious claim is false of the code. Wherever a law fails, the condition under which
it holds is proved exactly, for all inputs.

- `encode_oid` adds its first two arcs in 32 bits, so it accepts second arcs up to 175 under root 2 and, after
  wrapping, 2.4294967216 and above, which it prints as another identifier (`Ber.OidRoundTrip`, `Ber.WrappedArcIsMisread`).
- A length of 2^32 or more is printed but never read (`Ber.LengthRoundTrip`).
- A batch of audit inserts, no longer than the retention limit, equals the same inserts one at a time exactly when no
  event repeats a row that the events before it have pushed out; fresh event ids always qualify
  (`AuditBatching.BatchEqualsOneByOneExactly`, `AuditWriter.BatchEqualsOneByOne`).
- A step leaves a capture file without a row in exactly three ways: a capture started from `ready`, a rule deleted with
  ready instances of its own, and a finalizer saving a file it has not recorded yet (`Lifecycle.OrphansBeginExactly`,
  `Lifecycle.RestartedCaptureOrphansFile`; a run of the first kind is `Lifecycle.OrphanIsReached`). The finalizer's last
  step claims the file exactly if the row is still there; a rule deleted meanwhile leaves it behind
  (`Lifecycle.FinishedFileIsClaimedExactly`, `Lifecycle.UnclaimedFinishIsReached`). Undeploying removes the file exactly
  of a ready instance, and a restart every orphan whose name is managed and whose removal succeeds
  (`Lifecycle.UndeployRemovesReadyFile`, `Lifecycle.RestartLeavesNoOrphan`).
- A running workload is left without a row in exactly three ways: the Agent starts it when the row is gone already, its
  rule is deleted, or an undeployment that read no workload id, and so stopped none, deletes the row. Only its own exit
  or an undeployment begun before can end that (`Workloads.RowsAreLostExactly`, `Workloads.RowlessEndsExactly`; a run is
  `Workloads.LostWorkloadIsReached`).
- Until 32 commands are answered, Memcached never gives up on a stream exactly if it fits the buffer at every point, and
  always exactly if a newline-free run of 4096 bytes waits for more; in between it depends on the chunks, and only there
  (`Memcached.NeverRefusedExactlyWhenFitting`, `Memcached.AlwaysRefusedExactlyWhenOverflowing`,
  `Memcached.DependsOnChunksExactly`; a stream in between is `Memcached.LongLineDependsOnChunks`).
- The MySQL parser loses the database name on the zero-terminated branch, and result strings from 251 bytes on carry a
  wrong length (`Mysql.NulHandshakeRoundTrip`, `Mysql.TextResultReads`).
- GETBULK walks its first identifier alone, at least once and at most 32 times, and stops at the end of the table without
  saying so; when that is what section 4.2.3 of RFC 3416 asks for is decided by the message's controls, its identifiers
  and the table (`SnmpBulk.BulkIsStandardExactly`, `SnmpBulk.BulkMessageIsStandardExactly`,
  `SnmpBulk.OnlyTheFirstCounts`; inputs where they differ are `SnmpBulk.SecondIdentifierIsDropped` and
  `SnmpBulk.RepetitionsAreCut`).
- SMTP accepts a message that ends with the connection instead of a lone dot, exactly when no lone dot is among the
  lines still to come (`Smtp.ClosedExactlyByDot`, `Smtp.EveryMessageIsClosedExactly`, `Smtp.UnterminatedMessageIsAccepted`).
- POP3 reports success for DELE of every message of the mailbox, which is true exactly of those not deleted yet
  (`Pop3.DeleteTakesItsSize`, `Pop3.SecondDeleteSucceedsToo`). It obeys RSET without authentication, which changes the
  session exactly when some message is marked (`Pop3.OnlyResetNeedsNoLogin`, `Pop3.ResetWithoutLoginIsReached`). It
  does no dot-stuffing, so a message is read whole exactly when no line is a lone dot, or begins with a dot for a client
  that expects it (`Pop3.ReadsTheMessageExactly`, `Pop3.LoneDotIsLost`).

## Model

| member | source | states |
|---|---|---|
| `Ber.ReadLength` | `crates/protocol-simulation-engine/src/simulation/snmp.rs:38-57` | the length at a cursor, or a failure for an indefinite, truncated or over four octet form; a length read is below 2^32 |
| `Ber.EncodeLength` | `crates/protocol-simulation-engine/src/simulation/snmp.rs:169-182` | appends the definite form, short below 128, otherwise a count and the significant octets |
| `Ber.LengthRoundTrip` | `crates/protocol-simulation-engine/src/simulation/snmp.rs:38-57` | at any offset and whatever follows, a printed length is read back exactly when it is below 2^32, and refused otherwise |
| `Ber.LengthFormsRead` | `crates/protocol-simulation-engine/src/simulation/snmp.rs:38-57` | the short form and one to four counted octets are read, padded or not, if they are all there; the indefinite form, longer and truncated ones are refused (section 8.1.3 of X.690) |
| `Ber.ReadTlv` | `crates/protocol-simulation-engine/src/simulation/snmp.rs:59-67` | tag, length and content at a cursor, which always moves forward |
| `Ber.TlvRoundTrip` | `crates/protocol-simulation-engine/src/simulation/snmp.rs:184-190` | a wrapped element is read back at any offset exactly when its content is shorter than 2^32 bytes |
| `Ber.ElementsRoundTrip` | `crates/protocol-simulation-engine/src/simulation/snmp.rs:184-190` | any list of readable elements printed one after the other reads back as that list |
| `Ber.DecodeInteger` | `crates/protocol-simulation-engine/src/simulation/snmp.rs:69-78` | two's complement over one to eight octets, else nothing; the result is within 64 bits |
| `Ber.EncodeInteger` | `crates/protocol-simulation-engine/src/simulation/snmp.rs:192-202` | drops redundant leading octets of the eight byte form and wraps the rest |
| `Ber.IntegerRoundTrip` | `crates/protocol-simulation-engine/src/simulation/snmp.rs:192-202` | every 64-bit integer decodes to itself |
| `Ber.IntegerMinimal` | `crates/protocol-simulation-engine/src/simulation/snmp.rs:192-202` | no other octet string of that value is shorter, and none as short differs (section 8.3.2 of X.690) |
| `Ber.UnsignedRoundTrip` | `crates/protocol-simulation-engine/src/simulation/snmp.rs:204-215` | an unsigned value keeps its number, and the integer decoder accepts it exactly below 2^63 |
| `Ber.EncodeComponent` | `crates/protocol-simulation-engine/src/simulation/snmp.rs:217-235` | filling the five byte buffer from its end never underflows, and gives the base-128 digits of any 32-bit arc |
| `Ber.EncodeOid` | `crates/protocol-simulation-engine/src/simulation/snmp.rs:217-235` | refuses what the source refuses and prints the first two arcs in one byte, the others in base 128 |
| `Ber.DecodeOid` | `crates/protocol-simulation-engine/src/simulation/snmp.rs:80-101` | undoes base 128 with the 32-bit overflow check; a dangling continuation byte fails |
| `Ber.OidRoundTrip` | `crates/protocol-simulation-engine/src/simulation/snmp.rs:217-235` | an accepted identifier decodes to itself exactly when its second arc fits beside its root: at most 39, or 175 under root 2 |
| `Ber.AcceptedExactly` | `crates/protocol-simulation-engine/src/simulation/snmp.rs:217-235` | an identifier is encoded exactly when its second arc is at most 39, or 175 under root 2, or makes the 32-bit sum wrap |
| `Ber.DecodedIsRepresentable` | `crates/protocol-simulation-engine/src/simulation/snmp.rs:80-101` | whatever decodes is accepted by the encoder and round trips |
| `Ber.UnfinishedIsRefused` | `crates/protocol-simulation-engine/src/simulation/snmp.rs:80-101` | octets whose last group has its continuation bit set never decode, whatever group is open before them |
| `Ber.PaddingIsAccepted` | `crates/protocol-simulation-engine/src/simulation/snmp.rs:86-96` | a leading zero digit in front of a group changes nothing, though section 8.19.2 of X.690 forbids it |
| `Ber.WrappedArcIsMisread` | `crates/protocol-simulation-engine/src/simulation/snmp.rs:217-235` | a concrete input beyond that bound: 2.4294967216 is accepted because the 32-bit sum wraps, and reads back as 0.0 |
| `Mib.NextValue` | `crates/protocol-simulation-engine/src/simulation/snmp.rs:281-288` | the search returns the first stored entry above the argument |
| `Mib.NextIsLeast` | `crates/protocol-simulation-engine/src/simulation/snmp.rs:281-288` | that entry is the least one lexicographically above the argument, and there is none exactly when nothing is above |
| `Mib.WalkStep` | `crates/protocol-simulation-engine/src/simulation/snmp.rs:281-288` | each step of a walk is the GETNEXT answer to the step before |
| `Mib.WalkVisitsAllAbove` | `crates/protocol-simulation-engine/src/simulation/snmp.rs:281-288` | repeated GETNEXT visits every larger identifier exactly once, in order, and then stops |
| `Mib.Bulk` | `crates/protocol-simulation-engine/src/simulation/snmp.rs:325-334` | the GETBULK loop collects that walk |
| `Snmp.ParseRequest` | `crates/protocol-simulation-engine/src/simulation/snmp.rs:103-167` | parses a message or refuses it, with the source's checks of every nested length, tag and range |
| `Snmp.ParsedRequestIsWellFormed` | `crates/protocol-simulation-engine/src/simulation/snmp.rs:103-167` | a parsed request has version 0 or 1, one of the three PDU tags, at most 32 repetitions and 1 to 32 decodable identifiers |
| `Snmp.RequestRoundTrip` | `crates/protocol-simulation-engine/src/simulation/snmp.rs:103-167` | a request printed in the five nested levels parses back to its fields exactly when it has 1 to 32 varbinds |
| `Snmp.EncodeVarbind` | `crates/protocol-simulation-engine/src/simulation/snmp.rs:290-300` | one varbind: the fixed time ticks for sysUpTime.0, an octet string, or null |
| `Snmp.BuildResponse` | `crates/protocol-simulation-engine/src/simulation/snmp.rs:302-344` | the printed response with the chosen varbinds; it fails exactly when some identifier cannot be encoded |
| `Snmp.VarbindReads` | `crates/protocol-simulation-engine/src/simulation/snmp.rs:290-300` | a printed varbind decodes to the same identifier and value exactly when its identifier is one that round trips |
| `Snmp.ResponseReads` | `crates/protocol-simulation-engine/src/simulation/snmp.rs:302-344` | a printed response decodes to the same version, community, request id, error fields 0 and varbinds exactly while its body is shorter than 2^32 and every identifier in it round trips |
| `Snmp.EveryParsedRequestIsAnswered` | `crates/protocol-simulation-engine/src/simulation/snmp.rs:302-344` | for every message and table: the answer to a request that parses reads back with its fields and exactly the chosen varbinds exactly when every identifier answered round trips; over a table of such identifiers every request that parses is answered so |
| `Snmp.ManagerIsToldTheTable` | `crates/protocol-simulation-engine/src/simulation/snmp.rs:302-344` | end to end, for every message and sorted table: what a manager reads in the answer are the table's own entries, for GET those of the identifiers, for GETNEXT the least ones above, for GETBULK those above the first; a text is told whole, a missing entry as null, sysUpTime.0 always as 360000 ticks |
| `Snmp.EnvelopeReads` | `crates/protocol-simulation-engine/src/simulation/snmp.rs:103-123` | three elements in an envelope parse exactly when the envelope is a sequence with nothing after it and they are an integer 0 or 1, a string and one of the three operations |
| `Snmp.PduElementsRead` | `crates/protocol-simulation-engine/src/simulation/snmp.rs:124-167` | four elements of an operation parse exactly when they are three integers and a list of 1 to 32 varbinds that parse |
| `Snmp.VarbindOidReads` | `crates/protocol-simulation-engine/src/simulation/snmp.rs:142-153` | a varbind gives its identifier exactly when it is a sequence that begins with an identifier |
| `Snmp.GetReadsTheTable` | `crates/protocol-simulation-engine/src/simulation/snmp.rs:309-315` | each identifier of a GET is answered with the text stored for it, whatever it is, and with null when there is none; sysUpTime.0 with 360000 ticks |
| `Snmp.BulkIsPrefixOfWalk` | `crates/protocol-simulation-engine/src/simulation/snmp.rs:325-334` | GETBULK returns the first min(max(1, r), remaining) entries above its first identifier, strictly increasing, at most 32 |
| `Snmp.BulkStepsAreGetNext` | `crates/protocol-simulation-engine/src/simulation/snmp.rs:325-334` | each GETBULK varbind is the GETNEXT answer to the one before |
| `SnmpBulk.BulkIsStandardExactly` | `crates/protocol-simulation-engine/src/simulation/snmp.rs:133-137` | for every request, table and the message's own two controls the answer is the one of section 4.2.3 of RFC 3416 exactly when: with no repetitions, nothing to walk or a single non-repeater with an entry above it; otherwise a single repeater asked for at most 32 times with enough entries above it, or only non-repeaters that lie one by one just below the first at most 32 entries of the walk |
| `SnmpBulk.BulkMessageIsStandardExactly` | `crates/protocol-simulation-engine/src/simulation/snmp.rs:325-334` | the same from a printed message to its answer |
| `SnmpBulk.RepetitionsAreCut` | `crates/protocol-simulation-engine/src/simulation/snmp.rs:133-137` | a concrete message: 40 repetitions of one identifier with 40 entries above it are answered with 32 |
| `SnmpBulk.OnlyTheFirstCounts` | `crates/protocol-simulation-engine/src/simulation/snmp.rs:325-334` | two GETBULK requests that differ only after their first identifier get the same answer |
| `SnmpBulk.SecondIdentifierIsDropped` | `crates/protocol-simulation-engine/src/simulation/snmp.rs:325-334` | a concrete request for two identifiers, each with an entry above it: the section answers both, the source the first |
| `AuditTable.InsertAllAppends` | `crates/protocol-simulation/src/db.rs:742-790` | a batch only appends: old rows keep their place, new ids are larger, event ids stay unique |
| `AuditTable.FreshAreAdded` | `crates/protocol-simulation/src/db.rs:742-790` | fresh events become new rows one by one, numbered in order |
| `AuditTable.CommitKeepsNewest` | `crates/protocol-simulation/src/db.rs:708-820` | a commit leaves exactly the newest min(N, total) rows of its instance in insertion order, its count is right, and other instances are untouched |
| `AuditTable.AddedRowsSurvive` | `crates/protocol-simulation/src/db.rs:792-813` | with no more events than the limit, no row added by a commit is pruned by it |
| `AuditWriter.MaxPerInstance` | `crates/protocol-simulation/src/lib.rs:153-177` | the configured limit counts only from 10000 upwards; absent or smaller, the limit is exactly 10000 |
| `AuditWriter.RunIsConsistent` | `crates/protocol-simulation/src/db.rs:125-190` | after any run of commits, failed commits, creations and cascading deletions, every cached count of a live instance is its real row count and event ids are unique |
| `AuditWriter.CacheFollowsCommit` | `crates/protocol-simulation/src/db.rs:150-188` | after a commit the cache holds the real count of a live instance and nothing of a missing one; a failed transaction changes neither table nor cache |
| `AuditWriter.BatchingDoesNotShow` | `crates/protocol-simulation/src/db.rs:125-190` | for fresh event ids an instance holds the newest N of its old contents and what arrived, however the events were batched |
| `AuditWriter.SameArrivalsSameContents` | `crates/protocol-simulation/src/db.rs:125-190` | two runs in which the same events arrive for an instance leave it the same contents |
| `AuditWriter.BatchEqualsOneByOne` | `crates/protocol-simulation/src/db.rs:708-820` | one batch of fresh events equals inserting and pruning one at a time |
| `AuditBatching.BatchEqualsOneByOneExactly` | `crates/protocol-simulation/src/db.rs:708-820` | a batch no longer than the limit equals one at a time exactly when every event that repeats a stored row comes before that row is pushed out |
| `AuditBatching.TogetherWhileInTime` | `crates/protocol-simulation/src/db.rs:742-813` | as long as events come in time, both ways keep the same rows with the same ids after each of them |
| `AuditBatching.RepeatOfPrunedRowDiffers` | `crates/protocol-simulation/src/db.rs:708-820` | a family where they differ: a new event and then a repeat of the oldest row of a full table |
| `AuditWriter.RowSurvives` | `crates/protocol-simulation/src/db.rs:792-813` | a row stays as long as fewer than N newer ones were committed |
| `AuditWriter.RowStaysExactly` | `crates/protocol-simulation/src/db.rs:792-813` | a row is still stored exactly when fewer than N newer rows of its instance were committed |
| `AuditWriter.RetryReturnsOriginal` | `crates/protocol-simulation/src/db.rs:744-790` | a retried event with fewer than N newer rows committed returns its original row |
| `AuditService.Grouped` | `crates/protocol-simulation/src/db.rs:142-148` | grouping keeps each instance's requests in arrival order and loses none |
| `AuditService.InsertRows` | `crates/protocol-simulation/src/db.rs:742-790` | the insert-or-ignore loop with its read back and its count of new rows |
| `AuditService.AuditLogWriter.InsertInstanceLogBatch` | `crates/protocol-simulation/src/db.rs:708-820` | one transaction: the new table and the result, or the old table when it fails |
| `AuditService.AuditLogWriter.CommitGroup` | `crates/protocol-simulation/src/db.rs:150-188` | the cache after each outcome of a group, and one reply per request |
| `AuditService.AuditLogWriter.CreateInstance` | `crates/protocol-simulation/src/db.rs:508-588` | a new instance has no rows and disturbs no other |
| `AuditService.AuditLogWriter.DeleteInstance` | `crates/protocol-simulation/src/db.rs:642-649` | deleting an instance deletes its rows by the cascade |
| `AuditService.AuditLogWriter.HandleBatch` | `crates/protocol-simulation/src/db.rs:131-188` | a turn of the writer is its groups' commits in some order that lists every instance once |
| `AuditService.EveryRequestIsAnsweredOnce` | `crates/protocol-simulation/src/db.rs:131-188` | the replies of a turn are, as a multiset, replies to exactly its requests |
| `AuditService.EveryReplyIsDeserved` | `crates/protocol-simulation/src/db.rs:150-188` | a missing instance or a failed transaction touches only its own group, and a stored reply carries its own event id |
| `AuditService.NewRowsOutliveTheirCommit` | `crates/protocol-simulation/src/db.rs:131-188` | a batch of at most 128 under a limit of at least 10000 never prunes a row it has just stored |
| `AuditService.TurnIsRun` | `crates/protocol-simulation/src/db.rs:131-188` | a whole turn keeps the cache in agreement with the table |
| `AuditPages.ListInstanceLogs` | `crates/protocol-simulation/src/db.rs:822-858` | the total and one page of an instance's rows, newest first |
| `AuditPages.PagesCoverTheTable` | `crates/protocol-simulation/src/db.rs:822-858` | turning the pages lists every row exactly once, newest first, and nothing after the last |
| `AuditPages.PagesFall` | `crates/protocol-simulation/src/db.rs:834-845` | through the pages the row ids strictly fall |
| `Reporter.EveryRunKeepsInv` | `crates/protocol-simulation-engine/src/simulation/common.rs:110-202` | in every state of every run the queue and the join set agree with where the events are, at most 1024 are queued and 4 in flight, posting starts in order, and an event is posted at most 3 times, again only after a retryable answer |
| `Reporter.PostedUntilSettled` | `crates/protocol-simulation-engine/src/simulation/common.rs:155-190` | on every run an event is given up exactly once it was accepted or rejected or has been posted three times; every earlier post met a server error or no answer, and while that is so it is posted again |
| `Reporter.ReportsAreQueuedExactly` | `crates/protocol-simulation-engine/src/simulation/common.rs:77-94` | a report is queued exactly while the reporter is there and fewer than 1024 wait, dropped and counted exactly when that many do |
| `Reporter.OldestStarts` | `crates/protocol-simulation-engine/src/simulation/common.rs:110-124` | the oldest queued event starts exactly while fewer than four are in flight |
| `Reporter.ClosedForGood` | `crates/protocol-simulation-engine/src/simulation/common.rs:77-94` | the reporter starts open with nothing counted, and once closed stays so |
| `Reporter.EveryRunCounts` | `crates/protocol-simulation-engine/src/simulation/common.rs:77-94` | queue length, tasks and the dropped counter are the numbers of events with that fate |
| `Reporter.NothingIsLost` | `crates/protocol-simulation-engine/src/simulation/common.rs:77-94` | queued, in flight, finished, dropped and refused add up to the events reported |
| `Reporter.PostsOfOneEvent` | `crates/protocol-simulation-engine/src/simulation/common.rs:124-190` | posts have one event id exactly when they are of one event, and there are at most three |
| `EventPipeline.EveryRunKeepsInv` | `crates/protocol-simulation-engine/src/simulation/common.rs:112-200` | in every interleaving of any number of reporters and the writer, every stored row records an event whose posting has begun |
| `EventPipeline.OneRowPerReport` | `crates/protocol-simulation/src/db.rs:742-790` | end to end: every row records one reported event with its instance and content, and two rows record the same report exactly when they are one row, however often it was posted, batched, pruned or deleted in between |
| `EventPipeline.CommittedEventIsRecorded` | `crates/protocol-simulation/src/db.rs:742-790` | at every moment of every run a batch committed for a live instance answers each of its events, retries included, with a row that records that very event, and stores it if it was not there |
| `Endpoints.BuildEndpoints` | `crates/protocol-simulation/src/routes.rs:311-362` | accepts exactly the binding lists without port 0, repeats, unknown ids or missing required ids, and binds them in descriptor order |
| `Endpoints.RequestedExactly` | `crates/protocol-simulation/src/routes.rs:311-329` | a binding list is taken exactly when no port is 0 and no endpoint is named twice, and then means each of its bindings |
| `Endpoints.BoundAreDistinct` | `crates/protocol-simulation/src/routes.rs:334-350` | the endpoints bound differ in id and in transport |
| `Endpoints.ValidatedEndpoints` | `crates/protocol-simulation-engine/src/main.rs:101-136` | the engine's loop accepts exactly non-empty lists of distinct, matching endpoints that cover the required ones |
| `Endpoints.AcceptedIsLaunchable` | `crates/protocol-simulation/src/routes.rs:399-422` | for every protocol, whatever a deployment accepts passes the engine's check, each port where it was asked for |
| `Endpoints.ValidateRuleEndpoints` | `crates/protocol-simulation/src/rule_package.rs:266-291` | the rule check: equal length, and each expected id found with the right transport, port and requirement |
| `Endpoints.ValidRuleIsPermutation` | `crates/protocol-simulation/src/rule_package.rs:266-291` | a rule passes exactly when it declares the descriptor's endpoints as a permutation, each with its own transport, container port and requirement and a default port in range |
| `Endpoints.DescriptorsAreDistinct` | `crates/protocol-simulation-common/src/lib.rs:279-314` | no descriptor repeats an id or a transport |
| `Endpoints.DefaultsAreDistinct` | `crates/protocol-simulation-common/src/lib.rs:168-337` | no two protocols share a default or container port over one transport: all can run side by side on their defaults |
| `Captures.NameIsManaged` | `crates/protocol-simulation/src/pcap.rs:12-14` | a capture file name is managed exactly when the instance id is plain text |
| `Captures.ManagedIsAName` | `crates/protocol-simulation/src/pcap.rs:78-90` | every managed name is the capture name of some plain id |
| `Captures.NamesAreDistinct` | `crates/protocol-simulation/src/pcap.rs:12-14` | two instances never share a capture file |
| `Captures.CaptureDirectory.CleanupOrphanedCaptureFiles` | `crates/protocol-simulation/src/pcap.rs:30-65` | what the sweep leaves in the directory and reports, and where it gives up |
| `Captures.SweepIsExact` | `crates/protocol-simulation/src/pcap.rs:30-65` | an entry is left exactly when it is referenced, unmanaged or not a regular file, or its removal failed and was reported |
| `Captures.SweepAddsUp` | `crates/protocol-simulation/src/pcap.rs:30-65` | entries left and removed add up to the listing when none had vanished |
| `Captures.SweepOfOne` | `crates/protocol-simulation/src/pcap.rs:49-63` | what becomes of one entry, by its name, kind and removal: removed, gone already, reported with its error, or left alone |
| `Captures.SweepOfMore` | `crates/protocol-simulation/src/pcap.rs:46-64` | a listing is swept entry by entry, in order |
| `Captures.GivesUpExactly` | `crates/protocol-simulation/src/pcap.rs:51-57` | the sweep gives up exactly when it comes to an unreferenced capture file whose type it cannot read |
| `Lifecycle.EveryRunKeepsInv` | `crates/protocol-simulation/src/routes.rs:300-541` | in every state of every interleaving: ports exclusive, captures consistent, snapshots under lock still true, pending deployments untouched, capture ids distinct, rules present |
| `Lifecycle.NothingBecomesActive` | `crates/protocol-simulation/src/db.rs:651-676` | no step but a new deployment makes an instance active or changes an active one's endpoints |
| `Lifecycle.DeployStaysExclusive` | `crates/protocol-simulation/src/db.rs:508-588` | an insert after the availability check keeps every two bindings of active instances apart, even two of one instance |
| `Lifecycle.NeverActiveAgain` | `crates/protocol-simulation/src/routes.rs:641-679` | on every run an instance that has left deploying and running never enters them again |
| `Lifecycle.FinalizerEndsOnlyItsCapture` | `crates/protocol-simulation/src/routes.rs:899-949` | a finalizer that expects one capture ends no other and no other instance's, whatever happened since it was armed |
| `Lifecycle.ReadyFilesExist` | `crates/protocol-simulation/src/routes.rs:926-949` | a ready instance nobody has locked has its canonical file, and it is on disk |
| `Lifecycle.UndeployRemovesReadyFile` | `crates/protocol-simulation/src/routes.rs:544-622` | an undeployment leaves the file on disk exactly when it was there and the row was not ready |
| `Lifecycle.RestartedCaptureOrphansFile` | `crates/protocol-simulation/src/routes.rs:727-737` | starting a capture orphans a file exactly when the row was ready, and then only the instance's own; afterwards that file is an orphan exactly when it is on disk |
| `Lifecycle.OrphansBeginExactly` | `crates/protocol-simulation/src/routes.rs:183-210` | of all steps exactly a start from ready, a rule deletion that takes a ready instance along, and the saving of a file not on disk before leave an instance's file without a row that refers to it |
| `Lifecycle.OrphanIsReached` | `crates/protocol-simulation/src/routes.rs:727-737` | a run from the initial state that orphans a file: deploy, start a capture, finalize it, start another |
| `Lifecycle.FinishedFileIsClaimedExactly` | `crates/protocol-simulation/src/routes.rs:936-949` | after a finalizer's last step its file is without a row exactly when the row was gone |
| `Lifecycle.UnclaimedFinishIsReached` | `crates/protocol-simulation/src/routes.rs:936-949` | a run to that case: the rule is deleted while the finalizer stops the capture |
| `Lifecycle.RestartLeavesNoOrphan` | `crates/protocol-simulation/src/lib.rs:120-134` | a restart keeps an orphan exactly when its name is not managed or its removal failed; an instance's file is left exactly when it is ready, or it was there and its id is not plain or its removal failed |
| `Lifecycle.RulesStay` | `crates/protocol-simulation/src/db.rs:338-395` | no instance outlives its rule: deletion cascades and an import spares rules in use |
| `Lifecycle.RowChangesExactly` | `crates/protocol-simulation/src/routes.rs:446-514` | over all steps: a row becomes running exactly by a deployment answered with its workload, error by a failed deployment or undeployment, inactive by a reconcile; its workload, capture columns, rule and endpoints change exactly where the steps say |
| `Lifecycle.DeployedRowIsAsAsked` | `crates/protocol-simulation/src/routes.rs:365-388` | a deployment stores its row as deploying, without workload or capture, on each port asked for and no other |
| `Lifecycle.AvailableExactly` | `crates/protocol-simulation/src/db.rs:508-588` | a deployment is let through exactly when no deploying or running instance holds one of its bindings; one port over TCP and over UDP is two bindings |
| `Lifecycle.FailureFreesPorts` | `crates/protocol-simulation/src/routes.rs:474-514` | after a failed or refused deployment, a failed or finished undeployment or a reconcile that misses the workload, none of the instance's bindings is held by anyone |
| `Lifecycle.RunningInstancesHaveWorkloads` | `crates/protocol-simulation/src/routes.rs:446-467` | on every run an instance that runs has its workload |
| `Lifecycle.CapturesStartOnRunning` | `crates/protocol-simulation/src/routes.rs:688-725` | whoever is about to start a capture saw the instance running without one, and its row, if still there, has no capture yet and the same workload |
| `Lifecycle.StartIsOpenExactly` | `crates/protocol-simulation/src/routes.rs:688-706` | on every run a capture may start on exactly the unlocked running instances without one: none lacks its workload |
| `Lifecycle.DeployIsOpenExactly` | `crates/protocol-simulation/src/routes.rs:311-388` | a deployment is let through exactly on a new id and a known rule, for endpoints of the protocol, all required ones among them, on ports neither 0 nor taken |
| `Lifecycle.EveryLockIsReleased` | `crates/protocol-simulation/src/routes.rs:544-1030` | from every reached state whoever holds an instance's lock can let it go in at most two steps of its own, and no other instance is touched |
| `Lifecycle.UndeployCompletes` | `crates/protocol-simulation/src/routes.rs:544-622` | any unlocked instance can be undeployed: its row and the file it refers to are gone then, and no other instance is touched |
| `Lifecycle.UndeployFailsExactly` | `crates/protocol-simulation/src/routes.rs:551-618` | an undeployment can fail exactly when there is a workload to stop or a file to remove, and leaves the row as it was but for the status error |
| `Lifecycle.CaptureCompletes` | `crates/protocol-simulation/src/routes.rs:682-1028` | any unlocked running instance without a capture can be captured from start to file, and that capture deleted, row and file |
| `Lifecycle.DeploymentIsAnswered` | `crates/protocol-simulation/src/routes.rs:446-514` | a deployment that is out can be answered in three ways: it runs with its workload, is dropped, or is an error; a row deleted meanwhile stays deleted |
| `Lifecycle.ReconcileMarks` | `crates/protocol-simulation/src/routes.rs:641-679` | a reconcile scan can take any active instance that has a workload to inactive, and changes nothing else |
| `Lifecycle.CapturesStayDistinct` | `crates/protocol-simulation/src/routes.rs:682-756` | no two instances ever hold one capture id |
| `Workloads.EveryRunKeepsInv` | `crates/protocol-simulation/src/routes.rs:446-467` | on every run of service and Agent, a workload id in a row or read by a lock holder is the one started for that instance, and an undeployment past its stop has none running |
| `Workloads.RowsAreLostExactly` | `crates/protocol-simulation/src/routes.rs:544-618` | of all steps exactly a launch after the row is gone, a rule deletion and the end of an undeployment that read no workload id leave a running workload without a row |
| `Workloads.RowlessEndsExactly` | `crates/protocol-simulation/src/routes.rs:551-555` | a running workload without a row stays so until it exits, or an undeployment that had read its id before stops it |
| `Workloads.LostWorkloadIsReached` | `crates/protocol-simulation/src/routes.rs:551-555` | a run where it happens: undeploying while the deployment is still out |
| `InstanceStore.Store.InsertInstanceIfPortAvailable` | `crates/protocol-simulation/src/db.rs:508-588` | inserts exactly when every binding is free of active instances and the rule exists, else changes nothing |
| `InstanceStore.Store.UpdateInstanceStatus` | `crates/protocol-simulation/src/db.rs:651-676` | sets the status, keeps a workload when none is given, and leaves a missing row missing |
| `InstanceStore.Store.UpdatePcapState` | `crates/protocol-simulation/src/db.rs:678-706` | sets the four capture columns together and nothing else |
| `InstanceStore.Store.DeleteInstance` | `crates/protocol-simulation/src/db.rs:642-649` | removes the row and says whether there was one |
| `InstanceStore.Store.DeleteRule` | `crates/protocol-simulation/src/db.rs:469-476` | removes the rule and, by the cascade, every instance of it |
| `InstanceStore.Store.ImportRulePackage` | `crates/protocol-simulation/src/db.rs:338-395` | adds the imported rules and drops each packaged one that was not imported and has no instance |
| `LockTable.EveryRunKeepsInv` | `crates/protocol-simulation/src/lib.rs:49-65` | with guards dropped at any moment, even between retain and upgrade, every live mutex is the one its id maps to and no mutex serves two ids |
| `LockTable.MutualExclusion` | `crates/protocol-simulation/src/lib.rs:49-65` | on every run no two tasks own the lock of one instance |
| `LockTable.SameIdSameMutex` | `crates/protocol-simulation/src/lib.rs:49-65` | two tasks hold one mutex exactly when they asked for one instance |
| `LockTable.OnlySameIdBlocks` | `crates/protocol-simulation/src/lib.rs:49-65` | a waiting task is blocked exactly by an owner for the same instance |
| `LockTable.DeadEntriesAreGone` | `crates/protocol-simulation/src/lib.rs:53-62` | entries dead when a call began are gone after its pruning; only its own id is mapped anew |
| `LockTable.CallGetsToWait` | `crates/protocol-simulation/src/lib.rs:49-62` | from every reached state a call that finds the outer lock free goes on, in as many steps as there are entries and three more, to wait for its instance's lock, whatever the others hold; they stay where they are |
| `LockTable.UncontestedCallOwns` | `crates/protocol-simulation/src/lib.rs:49-65` | with one more step it owns the lock when no one owns that of its instance |
| `LockTable.LockIsHandedOver` | `crates/protocol-simulation/src/lib.rs:49-65` | a task waiting for an owned lock is blocked, and may take it as soon as the owner drops its guard |
| `Memcached.Handle` | `crates/protocol-simulation-engine/src/simulation/memcached.rs:55-98` | the nested loops answer what the chunk by chunk specification says, with the replies in order |
| `Memcached.DrainResumes` | `crates/protocol-simulation-engine/src/simulation/memcached.rs:66-98` | draining the rest together with the next chunk is draining both at once |
| `Memcached.AnswersFirstCommands` | `crates/protocol-simulation-engine/src/simulation/memcached.rs:55-98` | a handler that does not give up answers exactly the first 32 non-blank lines of the stream, in order, for every split into chunks |
| `Memcached.PrintedLinesAreAnswered` | `crates/protocol-simulation-engine/src/simulation/memcached.rs:68-97` | whoever sends lines gets the first 32 of those that are not blank answered, each once and in order, whatever the chunks, unless the handler gives up |
| `Memcached.RepliesFollow` | `crates/protocol-simulation-engine/src/simulation/memcached.rs:74-76` | what is written is the responses one after the other, nothing between them |
| `Memcached.NeverRefusedExactlyWhenFitting` | `crates/protocol-simulation-engine/src/simulation/memcached.rs:63-65` | no split of a stream is refused exactly when at every position reached before 32 answers the open line and the next read fit 4096 bytes |
| `Memcached.AlwaysRefusedExactlyWhenOverflowing` | `crates/protocol-simulation-engine/src/simulation/memcached.rs:63-65` | the handler gives up on a stream however it is cut up exactly when, with fewer than 32 commands before, 4096 bytes without a newline are followed by one more byte |
| `Memcached.DependsOnChunksExactly` | `crates/protocol-simulation-engine/src/simulation/memcached.rs:63-65` | some cut is refused and another served exactly for the streams that neither fit at every point nor overflow |
| `Memcached.LongLineDependsOnChunks` | `crates/protocol-simulation-engine/src/simulation/memcached.rs:63-65` | such a stream: 4000 bytes, a newline and 100 more, served byte by byte and refused when the last 101 come at once |
| `Memcached.ShortLinesAreAnswered` | `crates/protocol-simulation-engine/src/simulation/memcached.rs:55-98` | a stream without a newline-free run over 3584 bytes is answered completely, whatever the chunks |
| `Postgresql.SplitInvertsEncoding` | `crates/protocol-simulation-engine/src/simulation/database/postgresql.rs:15-21` | printed messages split back into themselves exactly when every length fits 32 bits |
| `Postgresql.SessionSplits` | `crates/protocol-simulation-engine/src/simulation/database/postgresql.rs:181-307` | whatever a client sends, the output, after the single N an encryption request gets, splits into exactly the session's messages exactly when each length fits 32 bits, which holds when no configured text exceeds 2^31 bytes |
| `Postgresql.StartupParameterInvertsPrinting` | `crates/protocol-simulation-engine/src/simulation/database/postgresql.rs:110-123` | for every list of non-empty NUL-free pairs, reading a name gives the first printed value under it that is text |
| `Postgresql.FrontendMessageReads` | `crates/protocol-simulation-engine/src/simulation/database/postgresql.rs:92-108` | a printed frontend message is read back exactly when its length is at most 65536 |
| `Postgresql.GroupsAreProper` | `crates/protocol-simulation-engine/src/simulation/database/postgresql.rs:257-305` | each group of replies ends in its only ReadyForQuery, and a row stands between its description and its completion |
| `Postgresql.AnsweredInOrder` | `crates/protocol-simulation-engine/src/simulation/database/postgresql.rs:257-305` | handled messages are answered in order, one group each, whatever follows them |
| `Postgresql.OpensExactlyOnLogin` | `crates/protocol-simulation-engine/src/simulation/database/postgresql.rs:181-255` | the session opens exactly for inputs with a credential and database match; for all others it sends no row and no ReadyForQuery |
| `Postgresql.LoginOpensExactly` | `crates/protocol-simulation-engine/src/simulation/database/postgresql.rs:181-255` | from printed bytes: a login opens the session exactly when its first readable "user" with its password is configured and its first readable "database", or else that user, is configured or no list is set; otherwise it is told which of the two failed |
| `Postgresql.DeclinesExactly` | `crates/protocol-simulation-engine/src/simulation/database/postgresql.rs:186-204` | encryption is declined exactly for the input that begins by asking for it |
| `Postgresql.OtherOpeningsAreRefused` | `crates/protocol-simulation-engine/src/simulation/database/postgresql.rs:181-236` | a startup of another version is told so, one without a password message is asked for it and anything else in its place refused; a client that closes in order ends the session in order, a cut-off message breaks it |
| `Postgresql.WelcomeTells` | `crates/protocol-simulation-engine/src/simulation/database/postgresql.rs:239-255` | the welcome: authentication done, the configured version or the default one among the parameters, ready at the end |
| `Postgresql.Connection.ServeSession` | `crates/protocol-simulation-engine/src/simulation/database/postgresql.rs:181-307` | the loop over the stream writes exactly the session's bytes |
| `Postgresql.Connection.AnswerMessages` | `crates/protocol-simulation-engine/src/simulation/database/postgresql.rs:257-305` | the loop writes the groups of the messages read |
| `Postgresql.RowReads` | `crates/protocol-simulation-engine/src/simulation/database/postgresql.rs:60-66` | a row's value reads back exactly when its length fits 32 bits |
| `Postgresql.ConfiguredQueryIsAnswered` | `crates/protocol-simulation-engine/src/simulation/database/postgresql.rs:155-179` | a query is answered with the first configured response whose query normalises alike, in a whole one-row result of the column "result" |
| `Postgresql.OtherQueriesAreAnswered` | `crates/protocol-simulation-engine/src/simulation/database/postgresql.rs:257-305` | every other message: the built-in queries tell the configured version or the default one in a row, a blank query gets the empty reply, the rest the right error, each followed by ready |
| `Mysql.PacketRoundTrip` | `crates/protocol-simulation-engine/src/simulation/database/mysql.rs:31-57` | a packet reads back exactly when its payload is at most 65536 bytes |
| `Mysql.TakeCString` | `crates/protocol-simulation-engine/src/simulation/database/mysql.rs:78-90` | the string before the next zero, and the offset after it |
| `Mysql.ParseHandshakeResponse` | `crates/protocol-simulation-engine/src/simulation/database/mysql.rs:111-151` | the parser over its moving offset, with every refusal |
| `Mysql.FlagsAreTheirBits` | `crates/protocol-simulation-engine/src/simulation/database/mysql.rs:12-16` | the four capability flags are bits 3, 9, 15 and 21 |
| `Mysql.HandshakeRoundTrip` | `crates/protocol-simulation-engine/src/simulation/database/mysql.rs:111-151` | on the two branches that give a length, a response parses back into its fields exactly when its authentication data is below 65536 bytes, or below 256 on the one-byte branch |
| `Mysql.NulHandshakeRoundTrip` | `crates/protocol-simulation-engine/src/simulation/database/mysql.rs:131-151` | on the zero-terminated branch it parses back exactly when no database or an empty one was sent, as the parser stays on the terminator |
| `Mysql.LenencStringRoundTrip` | `crates/protocol-simulation-engine/src/simulation/database/mysql.rs:198-201` | a length-encoded string reads back exactly when it is shorter than 251 bytes |
| `Mysql.TextResultReads` | `crates/protocol-simulation-engine/src/simulation/database/mysql.rs:218-236` | a result's column name and text come back exactly when both are shorter than 251 bytes |
| `Mqtt.ReadRemainingLength` | `crates/protocol-simulation-engine/src/simulation/mqtt.rs:26-38` | the multiplier loop reads at most four base-128 digits |
| `Mqtt.LengthRoundTrip` | `crates/protocol-simulation-engine/src/simulation/mqtt.rs:26-38` | printed digits read back exactly when there are no more than the limit (section 2.2.3 of MQTT 3.1.1) |
| `Mqtt.DigitsNeeded` | `crates/protocol-simulation-engine/src/simulation/mqtt.rs:26-38` | a number needs at most k digits exactly when it is below 128^k |
| `Mqtt.ReadPacket` | `crates/protocol-simulation-engine/src/simulation/mqtt.rs:20-45` | a packet, a failure or the end of the input |
| `Mqtt.PacketRoundTrip` | `crates/protocol-simulation-engine/src/simulation/mqtt.rs:20-45` | a packet reads back exactly when its payload is at most 65536 bytes, and its length then takes at most three bytes |
| `Mqtt.ConnectRoundTrip` | `crates/protocol-simulation-engine/src/simulation/mqtt.rs:47-62` | a CONNECT parses exactly when its name is one of the two known ones, and gives its level and credential flags |
| `Mongodb.DocumentReads` | `crates/protocol-simulation-engine/src/simulation/mongodb.rs:80-126` | every document reads back at any depth, its length prefix being exactly its size |
| `Mongodb.DocumentWriter.Push` | `crates/protocol-simulation-engine/src/simulation/mongodb.rs:89-126` | pushing a field extends the fields written so far |
| `Mongodb.DocumentWriter.Finish` | `crates/protocol-simulation-engine/src/simulation/mongodb.rs:80-87` | patching the length in place leaves the printed document |
| `Mongodb.BuildResponse` | `crates/protocol-simulation-engine/src/simulation/mongodb.rs:170-194` | the reply with its header and document |
| `Mongodb.ResponseReads` | `crates/protocol-simulation-engine/src/simulation/mongodb.rs:170-194` | the outer length is the reply's size, it echoes the request id, and its document is the command's |
| `Mongodb.ReplyTellsTheCommand` | `crates/protocol-simulation-engine/src/simulation/mongodb.rs:43-194` | from the bytes of a request to what a client reads: its own id, the reply opcode of its kind, and the fields of the first command its payload mentions in any case, with the configured values or the defaults; ok is 1.0 exactly when one is mentioned |
| `Mongodb.RequestReads` | `crates/protocol-simulation-engine/src/simulation/mongodb.rs:54-78` | a request reads exactly when it is within the size limit and has one of the two opcodes |
| `Dns.DecodeName` | `crates/protocol-simulation-engine/src/simulation/dns.rs:217-232` | the loop gives the labels and the offset after them |
| `Dns.NameAt` | `crates/protocol-simulation-engine/src/simulation/dns.rs:217-232` | reading a name always moves forward and stays within the message |
| `Dns.NameRoundTrip` | `crates/protocol-simulation-engine/src/simulation/dns.rs:217-232` | printed labels read back at any offset, whatever follows (section 3.1 of RFC 1035) |
| `Dns.NameIsPrinted` | `crates/protocol-simulation-engine/src/simulation/dns.rs:217-232` | what reads as a name is the print of its labels, each of 1 to 63 bytes |
| `Dns.BuildResponse` | `crates/protocol-simulation-engine/src/simulation/dns.rs:165-215` | the reply, or nothing for a malformed query |
| `Dns.ReplyReads` | `crates/protocol-simulation-engine/src/simulation/dns.rs:165-215` | the reply keeps the id and the question, counts exactly the records present, and its record carries the question's own name through the pointer (section 4.1.4 of RFC 1035) |
| `Dns.QueryIsAnswered` | `crates/protocol-simulation-engine/src/simulation/dns.rs:165-215` | from a printed query to what a resolver reads: it is answered exactly when it has one question; the one record with the configured address and time to live is there exactly for type and class 1 and a known name; an unknown name is said to be so |
| `Dns.ReplyFits` | `crates/protocol-simulation-engine/src/simulation/dns.rs:105-129` | a reply is at most 16 bytes longer than its query, so its length fits 16 bits over TCP |
| `Dns.EncodeHex` | `crates/protocol-simulation-engine/src/simulation/common.rs:204-212` | two digits per byte |
| `Dns.HexRoundTrip` | `crates/protocol-simulation-engine/src/simulation/common.rs:204-212` | the digits give the bytes back |
| `Dns.PayloadAccepted` | `crates/protocol-simulation/src/routes.rs:1252-1260` | the API accepts the reported payload exactly for up to 4096 bytes |
| `Smtp.EveryLineIsTakenOnce` | `crates/protocol-simulation-engine/src/simulation/smtp.rs:128-278` | every input line up to QUIT is taken by exactly one turn, in order, as a command, an answer or a body line |
| `Smtp.DataIsGated` | `crates/protocol-simulation-engine/src/simulation/smtp.rs:128-278` | recipients only with a sender; a 354 only after an accepted MAIL and then RCPT with no reset since, that MAIL after a successful AUTH when required |
| `Smtp.GoAheadExactly` | `crates/protocol-simulation-engine/src/simulation/smtp.rs:214-216` | on every session a line is answered with the go-ahead exactly when it is DATA and an accepted RCPT after an accepted MAIL stands, neither reset since |
| `Smtp.TurnsAnswerExactly` | `crates/protocol-simulation-engine/src/simulation/smtp.rs:128-278` | what each line does: AUTH succeeds exactly with a configured pair, MAIL, RCPT and DATA exactly under their conditions (authentication, FROM, accepted recipients, a recipient), RSET and a body end the transaction, only QUIT ends the session |
| `Smtp.LinesAreAnswered` | `crates/protocol-simulation-engine/src/simulation/smtp.rs:128-278` | each line's reply codes: none when blank, the custom response when there is one, otherwise those of its command word |
| `Smtp.GoAheadIsAnswered` | `crates/protocol-simulation-engine/src/simulation/smtp.rs:214-234` | a 354 is followed by the acceptance of exactly the bytes of the body taken |
| `Smtp.ClosedExactlyByDot` | `crates/protocol-simulation-engine/src/simulation/smtp.rs:214-234` | a message is closed by a lone dot exactly when one is among the lines after DATA; otherwise it is everything up to the end of the connection and accepted all the same |
| `Smtp.EveryMessageIsClosedExactly` | `crates/protocol-simulation-engine/src/simulation/smtp.rs:214-234` | the same at every step of every session, over the lines still to come |
| `Smtp.UnterminatedMessageIsAccepted` | `crates/protocol-simulation-engine/src/simulation/smtp.rs:214-234` | a concrete input: DATA and one line, with recipients given, is answered with the go-ahead and the acceptance of that line's bytes |
| `Smtp.Connection.HandleAuthLogin` | `crates/protocol-simulation-engine/src/simulation/smtp.rs:62-84` | the lines an AUTH LOGIN takes, what it asks, and whether the credentials match |
| `Smtp.Connection.HandleLine` | `crates/protocol-simulation-engine/src/simulation/smtp.rs:128-278` | one turn of the loop: replies, new session fields and lines taken |
| `Smtp.Connection.HandleConnection` | `crates/protocol-simulation-engine/src/simulation/smtp.rs:87-282` | the whole loop is the run of its turns |
| `Pop3.ViewsAgree` | `crates/protocol-simulation-engine/src/simulation/pop3.rs:179-249` | LIST without a number answers with exactly the undeleted messages in order and their sizes, STAT with their number and sum, UIDL with the same numbers and each message's own id or the default one |
| `Pop3.NumbersAreAnswered` | `crates/protocol-simulation-engine/src/simulation/pop3.rs:188-269` | with a number LIST, UIDL and RETR answer for that message if it is there, and say so if it is not |
| `Pop3.IndexReads` | `crates/protocol-simulation-engine/src/simulation/pop3.rs:56-63` | the printed number of a message names its index, and zero names none |
| `Pop3.MessageReads` | `crates/protocol-simulation-engine/src/simulation/mail_common.rs:102-114` | a retrieved message whose fields hold no line end reads back as its From, To, Subject and Date lines and its body |
| `Pop3.RetrievesWhatIsListed` | `crates/protocol-simulation-engine/src/simulation/pop3.rs:250-269` | RETR answers with a message exactly when LIST shows it, announces the listed size and sends that many bytes |
| `Pop3.MailboxIsConserved` | `crates/protocol-simulation-engine/src/simulation/pop3.rs:46-54` | for any marks, visible and deleted messages make up the mailbox, and each part of it from the first message on, in number and in size |
| `Pop3.DeleteTakesItsSize` | `crates/protocol-simulation-engine/src/simulation/pop3.rs:270-283` | DELE of a visible message takes exactly its size off, of any other it changes nothing; it reports success exactly for every message of the mailbox, and rightly so exactly for the visible ones |
| `Pop3.ResetRestoresView` | `crates/protocol-simulation-engine/src/simulation/pop3.rs:284-287` | RSET restores the initial view |
| `Pop3.SecondDeleteSucceedsToo` | `crates/protocol-simulation-engine/src/simulation/pop3.rs:270-283` | DELE given twice reports success twice, the second time without effect |
| `Pop3.OnlyResetNeedsNoLogin` | `crates/protocol-simulation-engine/src/simulation/pop3.rs:284-287` | without authentication a line changes the deletion marks exactly when it is the RSET command, with no custom response for it, and there are any |
| `Pop3.ResetWithoutLoginIsReached` | `crates/protocol-simulation-engine/src/simulation/pop3.rs:107-305` | a session where it happens: login, DELE, a failed login, RSET |
| `Pop3.ReadsTheMessageExactly` | `crates/protocol-simulation-engine/src/simulation/pop3.rs:250-269` | a client reading the answer to RETR up to a lone dot gets exactly the announced bytes exactly when no line of the message is a lone dot, or none begins with a dot if it undoes dot-stuffing; otherwise it gets fewer |
| `Pop3.LoneDotIsLost` | `crates/protocol-simulation-engine/src/simulation/pop3.rs:250-269` | a message no such client gets whole: its body is a lone dot |
| `Pop3.VisibleIsComplete` | `crates/protocol-simulation-engine/src/simulation/pop3.rs:46-54` | the view is in order and misses no undeleted message |
| `Pop3.NumberReads` | `crates/protocol-simulation-engine/src/simulation/pop3.rs:56-63` | a number printed in a listing parses back to the message it names |
| `Pop3.NumbersParseExactly` | `crates/protocol-simulation-engine/src/simulation/pop3.rs:56-63` | a word is read as a number exactly when it is one of 64 bits in decimal, with any zeros before it, after a plus sign or none |
| `Pop3.MailboxIsGated` | `crates/protocol-simulation-engine/src/simulation/pop3.rs:120-305` | under required authentication nothing of the mailbox is shown or marked unless the last credential check succeeded |
| `Pop3.TurnsChangeExactly` | `crates/protocol-simulation-engine/src/simulation/pop3.rs:107-305` | what each line does: only USER sets the name, only PASS and AUTH check a pair, against the configured ones, and decide who is in, only DELE and RSET touch the marks, only QUIT ends |
| `Pop3.RefusedExactly` | `crates/protocol-simulation-engine/src/simulation/pop3.rs:64-75` | the mailbox commands are refused exactly without authentication, and otherwise carried out, TOP as RETR |
| `Pop3.LinesAreAnswered` | `crates/protocol-simulation-engine/src/simulation/pop3.rs:107-305` | each line outside the mailbox gets its reply: none when blank, the custom response when there is one, otherwise that of its command word |
| `Pop3.WithoutMessage` | `crates/protocol-simulation-engine/src/simulation/pop3.rs:250-283` | RETR and DELE without a number ask for one; DELE reports success for any message there is |
| `Pop3.Connection.Statistics` | `crates/protocol-simulation-engine/src/simulation/pop3.rs:179-187` | counting and adding up the visible messages |
| `Pop3.Connection.HandleMailbox` | `crates/protocol-simulation-engine/src/simulation/pop3.rs:179-283` | the mailbox commands on the vector of marks |
| `Pop3.Connection.HandleLine` | `crates/protocol-simulation-engine/src/simulation/pop3.rs:107-322` | one turn of the loop |
| `Pop3.Connection.HandleConnection` | `crates/protocol-simulation-engine/src/simulation/pop3.rs:77-323` | the whole loop is the run of its turns |

## Left out

- The frontend, HTTP routing, tracing, operation events and metadata validation of `record_event`: only the payload limit is modelled.
- SQL text and SQLite: tables are sequences and maps, a transaction is one atomic step, a failed one leaves nothing.
- Sockets, timeouts and scheduling: input is a byte string, a list of chunks or a list of lines. A read error is taken as the input's end, which holds only where the two end alike: inside an SMTP message body and at the lines an AUTH command waits for, the source answers at the end of the input and is silent after an error.
- Builds with overflow checks: 32-bit sums wrap as in a release build; with the checks `encode_oid` panics on the input of Ber.WrappedArcIsMisread.
- The Agent and the capture tool: their answers are arbitrary, but a successful deployment's answer names the workload it started (the id made up when it does not is not modelled); workload and capture ids are never reused.
- Failures halfway through a locked section, and a restart while one is held: a section's writes succeed or it aborts unchanged.
- Wall-clock timers: a finalizer may begin at any moment, for any expected capture.
- Character tables (UTF-8 validity, Unicode white space), base64, SHA-1 and query normalisation: given as functions; `normalize_query` itself is not modelled.
- Numbers of retries and tasks apart, the reporter's delays and the HTTP status of each answer.
- The text of Memcached answers, SMTP and POP3 replies and PostgreSQL error fields beyond what their shape needs; a capability listing is one reply.
- The MySQL session loop: its gate repeats the PostgreSQL one; only its packets and results are modelled.
- Reading the SNMP configuration (`parse_oid_text`, `build_values`), the community check and the sockets around `build_response`.
- The message builders of PostgreSQL, MySQL packets and DNS append to local buffers in the source and are values here.
- `default_rule_host_port`, signature checks and unpacking of rule packages.
- HTTP, SSH, RDP, SMB, LDAP, Telnet, VNC, Redis, IMAP and FTP simulators: fixed replies or weaker copies of the SMTP and POP3 pattern.
- SnmpBulk.BulkIsStandardExactly: compares with the whole answer; the shorter ones section 4.2.3 permits for message size or time are not counted as equal.
- AuditBatching.BatchEqualsOneByOneExactly: asks that a batch is no longer than the limit, which holds for the service (128 against at least 10000).
