# Verified model of AkesoDLP

AkesoDLP is a data-loss-prevention platform: endpoint agents and network monitors detect sensitive
content, a server evaluates policies and distributes them, and incidents flow back and on to a SIEM.
This project models the parts of it that have algorithms of their own and proves what they promise,
for all inputs, runs or interleavings.

| modules | subsystem | main results |
|---|---|---|
| `ContentNormalizer`, `DecoderLaws`, `EncodingStack`, `Base64`, `Utf8` | iterated percent, HTML and base64 decoding | every change shortens the text; a secret under a stack of encodings inside a text is undone exactly when each base64 layer covers a recognisable text and no further decoder reaches the plaintext |
| `PolicyEvents`, `PolicyStream` | event bus, shared version counter, `PolicyUpdates` stream | under every interleaving the agent's copy converges, entry by entry; the bus version is a maximum; delivery is in order |
| `ArchiveFormats`, `ArchiveInspector`, `ArchiveTree`, `ArchiveLaws` | recursive extraction under budgets | extraction refines a budget-free tree, components and recorded problems: complete exactly when the tree is affordable, a prefix otherwise; nothing above the ratio is taken; which names are accepted |
| `GrpcRateLimiter`, `RateLimits` | per-agent token buckets | non-interference and cleanup transparency exactly when the limit is not one a minute; upper bound in every window, and a lower one for whoever is refused |
| `Cef`, `CefReader`, `SyslogExporter`, `Decimal` | CEF records, octet-counted frames | reading a record by keys and labels gives back the incident; whatever bytes are lost, each connection is understood as a beginning of the incidents reported as sent on it; all of them exactly when no byte of a reported frame was lost |
| `DedupKey`, `IncidentQueue`, `IncidentQueueStore`, `IncidentQueueLaws` | the agent's persistent queue | conservation of rows over runs and restarts; what is queued arrives whole and oldest first; when the dedup text identifies an incident |
| `PolicyModel`, `PolicyEvaluator`, `PolicyLaws`, `PolicyConditions` | policy evaluation | equal to an order-free meaning; what conditions, groups and exceptions ask; exceptions only relieve; when severity is monotone |
| `DiscoverScanner`, `DiscoverLaws` | incremental file scan | agrees with a scanner that has no cache; each counter counts exactly its entries |
| `FilterPort` | driver connection port | mutual exclusion over every schedule; when a client is refused |

Where the original loops and mutates, the model has a class or a method with a loop, and each is
proved equal to a function of its inputs or of the old state; the theorems are about those functions.
Outside calls are parameters: the HTML reference table and `isprintable` (`Library`), archive codecs,
FileInspector and the characters `strip` removes (`Codec`), the SHA-256 digest, `lower`, `re.search`
and custom exception conditions (`Message`), the clock readings of each rate-limited call, the
fate of each send (`Attempt`) and the bytes that reach the receiver, and what a directory walk meets
(`Entry`). `Basics` and `Wrappers` hold helpers the modules share.

## Where a promise needs a condition

Each of these is kept as the code has it, and a lemma states the condition or shows the case.

- A base64 layer is not undone when it covers fewer than 24 bytes or a text that is less than 80 per
  cent printable; a plaintext right under a percent layer is not among the variants when the HTML or
  base64 decoder of the same pass changes it (`EncodingStack.StackUndoneIff`).
- `send` reports success once the local stack has accepted a frame, so incidents reported as sent can
  still be lost, and only such a loss hides them (`SyslogExporter.ReceiverUnderstandsReported`).
- An accepted archive member name may have a Windows drive prefix; Windows then does not resolve it
  below the extraction directory (`ArchiveFormats.SafeNameStaysBelow`, `ArchiveFormats.DriveNameAccepted`).
- A name ending in `.tar.gz` is read as gzip and one in `.tar.bz2` as bzip2: the tests for the double
  extensions never succeed (`ArchiveLaws.ByNameIsByExtension`).
- A full policy sync never retracts: policies deleted or suspended before the agent subscribed stay
  in its copy (`PolicyStream.FullSyncDoesNotRetract`); `PolicyStream.Converges` gives the exact copy.
- The bzip2 signature test compares five bytes with three, so real bzip2 content is recognised only
  by file name (`ArchiveFormats.Bzip2MagicIffBareSignature`).
- With a limit of one call a minute the idle-bucket cleanup can forget a spent bucket
  (`RateLimits.LimitOneIsNotTransparent`), which costs at most a tenth of a token every 300 seconds
  (`RateLimits.WindowBound`); with a limit of two or more it never removes a bucket at all, although
  it is documented as removing idle agents (`RateLimits.CleanupReclaimsNothing`).
- The dedup text of two different incidents can be equal as soon as a field contains `|`
  (`DedupKey.BlobIdentifiesIff`).
- A queued field is stored up to its first NUL but hashed whole, so a row has the hash of what it
  stores exactly when no hashed field has a NUL (`IncidentQueue.EnqueueKeepsHashedIff`).
- A driver client that connects after the previous client's port has been closed, but before that
  client's disconnect callback has lowered the counter, is refused (`FilterPort.ReconnectRefused`).
  This is the only case, if the filter manager counts a client from its connect until its port is
  closed; nobody is refused when nobody holds the connection (`FilterPort.RefusedIffDeparting`).

## Model

| member | source | states |
|---|---|---|
| ContentNormalizer.Normalize | network/content_normalizer.py:40-67 | the loop returns the chain of passes from the input to the cap or to the first text a pass leaves alone |
| ContentNormalizer.NormalizeBy | network/content_normalizer.py:54-67 | the same for any shortening pass; the membership test in `seen` never suppresses a variant |
| ContentNormalizer.VariantsShrink | network/content_normalizer.py:54-67 | the input comes first, lengths strictly fall (so variants are distinct), at most max_depth + 1 of them, and they end at the cap or at a fixed point |
| ContentNormalizer.VariantIsIterate | network/content_normalizer.py:57-65 | the i-th variant is the input after i passes |
| ContentNormalizer.FixedPointWithinLength | network/content_normalizer.py:57-60 | without the cap, len(text) passes always reach a fixed point |
| ContentNormalizer.PassShortens | network/content_normalizer.py:70-76 | a pass that changes the text shortens it, and one that changes nothing changes nothing in any of its three decoders |
| ContentNormalizer.SubShortens | network/content_normalizer.py:93-129 | regular-expression substitution by texts that are no longer shortens or keeps the whole text |
| ContentNormalizer.UnquoteShortens | network/content_normalizer.py:79-90 | percent decoding of any text keeps it or shortens it |
| DecoderLaws.SubFirst | network/content_normalizer.py:93-129 | text before the first match is copied, the match is replaced, and what follows is substituted in turn |
| DecoderLaws.SubInert | network/content_normalizer.py:93-129 | a text without any match is copied |
| DecoderLaws.ReferenceLongest | network/content_normalizer.py:93-103 | the HTML decoder takes the longest decimal, hexadecimal or named reference at a position, and nothing where there is none |
| DecoderLaws.ReferenceReplaced | network/content_normalizer.py:93-103 | a closed reference in mid-text is replaced and the rest decoded on |
| DecoderLaws.BlobLongest | network/content_normalizer.py:31-37 | the base64 decoder takes the longest run of at least 32 alphabet characters with up to two equals signs |
| DecoderLaws.LooksLikeTextIff | network/content_normalizer.py:120-123 | a decoded text is accepted if and only if it is not empty and at least four in five of its positions are printable |
| DecoderLaws.EscapeKept | network/content_normalizer.py:79-90 | a percent sign without two hexadecimal digits stands for itself |
| DecoderLaws.HexDigits | network/content_normalizer.py:79-90 | the hexadecimal digits of either case and their values |
| EncodingStack.EmbeddedStackUndoneIff | network/content_normalizer.py:40-129 | for any secret under any stack of layers inside a text in which no decoder finds anything: within the cap the text with the secret is among the variants if and only if every base64 layer covers at least 24 bytes of mostly printable text and, when the innermost layer is a percent layer, the HTML and base64 decoders leave the text with the secret unchanged |
| EncodingStack.PaddingOptional | network/content_normalizer.py:115-117 | padding may be left out or exceed what is due; two signs where one is due are the one case refused |
| EncodingStack.BinaryBlobKept | network/content_normalizer.py:117-127 | a blob of bytes that are not UTF-8 is left as it is |
| EncodingStack.StackUndoneIff | network/content_normalizer.py:40-129 | the same for a stack that is the whole text: within the cap, a nonempty plaintext is among the variants of its stack of layers if and only if every base64 layer covers at least 24 bytes of mostly printable text and, when the innermost layer is a percent layer, the HTML and base64 decoders leave the plaintext unchanged |
| EncodingStack.StackUndone | network/content_normalizer.py:40-129 | any stack of at most max_depth layers over a mostly printable plaintext of at least 24 bytes is undone, unless its innermost layer is a percent layer and the HTML or base64 decoder changes the plaintext |
| EncodingStack.Peel | network/content_normalizer.py:70-76 | inside a text as well as alone, one pass peels exactly one layer, or a percent layer together with the base64 layer under it; under a last percent layer the other two decoders run over the plaintext |
| EncodingStack.UrlUndoesPercent | network/content_normalizer.py:79-90 | percent decoding inverts percent-encoding of every UTF-8 byte inside a text |
| EncodingStack.PercentInert | network/content_normalizer.py:93-129 | percent text is inert to the HTML and base64 decoders |
| EncodingStack.Base64Step | network/content_normalizer.py:106-129 | a base64 text inside a text is replaced by its plaintext exactly when that is recognised, and what follows is decoded on |
| Base64.DecodeEncode | network/content_normalizer.py:115-118 | the body decoder inverts the base64 encoder |
| Utf8.DecodeEncode | network/content_normalizer.py:79-119 | strict and replacing UTF-8 decoding both invert encoding |
| Base64.AlphabetInOrder | network/content_normalizer.py:115-118 | the 64 characters in the order of their values, and no others |
| Utf8.ReplacedOnce | network/content_normalizer.py:79-90 | an encoding cut short, and each byte that can start nothing, is replaced by one U+FFFD |
| Utf8.StrictIff | network/content_normalizer.py:79-119 | strict decoding succeeds exactly on encodings and then both decoders give the encoded text |
| PolicyEvents.PolicyEventBus.Subscribe | server/policy_events.py:48-53 | appends a new, empty queue; for the stream that asked for it this is the protocol's subscribe action |
| PolicyEvents.PolicyEventBus.Unsubscribe | server/policy_events.py:55-61 | removes exactly that queue; an unknown queue is ignored |
| PolicyEvents.PolicyEventBus.Publish | server/policy_events.py:63-72 | every subscriber gets the event once, at its end |
| PolicyEvents.PolicyEventBus.CatchUp | server/policy_events.py:145-147 | the catch-up loop raises the version to the maximum and never lowers it |
| PolicyEvents.PolicyEventBus.Relay | server/policy_events.py:139-148 | a relayed message catches the version up and reaches every queue; for every subscribed stream this is the protocol's relay action |
| PolicyEvents.PolicyEventBus.PublishPolicyEvent | server/policy_events.py:198-215 | without Redis the version goes up by one and the event so numbered reaches every queue; for every subscribed stream these are the protocol's three announcement actions |
| PolicyStream.StepKeepsInv | server/grpc_server.py:369-427 | every action of the protocol keeps the invariant that ties the agent's copy, the queues and the database together |
| PolicyStream.Converges | server/grpc_server.py:369-427 | once every commit is announced, relayed and delivered, each entry of the agent's copy is the database's, absent, or what it had at the start, as the case determines |
| PolicyStream.ActiveCopiesExact | server/grpc_server.py:369-427 | then every active policy is exact, removals relayed since subscription are gone, and an id not in the database remains if and only if the agent had it and no removal was relayed |
| PolicyStream.FullSyncDoesNotRetract | server/grpc_server.py:378-397 | a run after which a suspended and a deleted policy stay in the copy |
| PolicyStream.InProcessAnnouncement | server/policy_events.py:210-215 | the in-process announcement is the three shared-channel actions in one segment |
| PolicyStream.VersionIsMaximum | server/policy_events.py:139-148 | the bus version is the maximum of its start value and the versions relayed |
| PolicyStream.VersionAgreement | server/policy_events.py:115-148 | it never exceeds the Redis counter and equals it if and only if the highest number has been relayed, even out of order |
| PolicyStream.DeliveredInOrder | server/grpc_server.py:399-427 | over any run nothing is lost, doubled or overtaken on the channel or in the stream's queue |
| PolicyStream.CurrentAgentNotResynced | server/grpc_server.py:378-397 | an agent that declares at least every version the server has seen or relays is never sent the full list |
| PolicyStream.BehindAgentResynced | server/grpc_server.py:378-397 | an agent that is behind streams nothing before it has been sent the full list |
| ArchiveFormats.Bzip2MagicIffBareSignature | server/detection/archive_inspector.py:157-168 | content alone is taken for bzip2 if and only if it is the three signature bytes |
| ArchiveFormats.SafeNameStaysBelow | server/detection/archive_inspector.py:76-93 | an accepted member name never leaves the directory it is resolved under on a POSIX system, and on Windows exactly when it has no drive prefix |
| ArchiveLaws.ByMagicIff | server/detection/archive_inspector.py:152-172 | each signature decides exactly for the contents that start with it, tar by its mark at offset 257 when no other does |
| ArchiveLaws.ByNameIsByExtension | server/detection/archive_inspector.py:174-192 | a name decides by its last extension in either case and by nothing else |
| ArchiveLaws.SuffixOf | server/detection/archive_inspector.py:175-175 | a stem and an extension have that extension as suffix |
| ArchiveLaws.SuffixNone | server/detection/archive_inspector.py:175-175 | a name without a dot, with its only dot in front, or with a dot at its end has none |
| ArchiveLaws.ContentBeforeName | server/detection/archive_inspector.py:152-192 | content decides before the name does |
| ArchiveLaws.BaseNameOf | server/detection/archive_inspector.py:339-340 | the last component of a path is its name |
| ArchiveLaws.InnerNameOf | server/detection/archive_inspector.py:386-411 | a compressed stream names its content by dropping its own extension in either case |
| ArchiveLaws.SafeNameIff | server/detection/archive_inspector.py:70-93 | a member name is accepted if and only if it is not blank, starts neither at a root nor at that of a drive, and none of its components, between slashes of either kind, goes up or names a device |
| ArchiveInspector.Extraction.ExtractRecursive | server/detection/archive_inspector.py:276-319 | the recursive call equals the extraction function of its old counters, errors and components |
| ArchiveInspector.Extraction.UnpackArchive | server/detection/archive_inspector.py:380-454 | the dispatch over formats, single-stream formats and the 7z opening likewise |
| ArchiveInspector.Extraction.ExtractEach | server/detection/archive_inspector.py:321-378 | the loop over members likewise, with every check in the order of its format |
| ArchiveInspector.Inspect | server/detection/archive_inspector.py:215-274 | the report lists the components, then the safety abort if any, then the errors |
| ArchiveTree.InspectRefinesTree | server/detection/archive_inspector.py:215-500 | extraction yields the leaves and the recorded problems of the unfolded tree in pre-order, all of them if and only if the tree is affordable and a prefix otherwise, within the byte budget |
| ArchiveTree.InspectCompleteWithinLimits | server/detection/archive_inspector.py:276-500 | members and declared bytes over all levels within the limits, nothing blocked: no abort, every leaf and every problem exactly once |
| ArchiveTree.InspectCounts | server/detection/archive_inspector.py:114-150 | even after an abort, total_files is at most max_files + max_depth and the number of calls is total_files + 1 |
| ArchiveTree.ExtractYields | server/detection/archive_inspector.py:276-500 | the same refinement from any progress and depth |
| ArchiveTree.ExtractAffordable | server/detection/archive_inspector.py:122-150 | no safety abort if and only if the tree's file need, byte need and ratios fit what is left |
| ArchiveTree.MembersIndependent | server/detection/archive_inspector.py:308-319 | readable members contribute their own leaves independently of what follows |
| ArchiveTree.BrokenMemberLosesOnlyItself | server/detection/archive_inspector.py:308-319 | a nested archive that cannot be decoded loses only its own leaves: those before it and after it all remain |
| ArchiveTree.DenseIffOverRatio | server/detection/archive_inspector.py:137-149 | the division in the code tests for more than max_ratio bytes for every compressed byte |
| ArchiveLaws.InspectWithinRatio | server/detection/archive_inspector.py:137-500 | over any inspection whatever is taken from zip, rar or a compressed stream is within the ratio or has no compressed bytes, the counters are number and bytes of what was taken, and a bomb is reported only above the ratio, so with a ratio of at least one never for what is no larger than its packed form |
| ArchiveLaws.OneFileInspected | server/detection/archive_inspector.py:276-378 | an archive of any listing format with one readable, safely named file within the limits reports exactly that file's components |
| ArchiveLaws.OneStreamInspected | server/detection/archive_inspector.py:380-415 | so does a compressed stream within the limits |
| ArchiveLaws.UnsafeMemberSkipped | server/detection/archive_inspector.py:327-331 | in zip, rar and tar an unsafe name is recorded and costs that member alone |
| ArchiveLaws.SevenZipAllOrNothing | server/detection/archive_inspector.py:424-428 | in 7z one unsafe name ends the inspection before anything is taken |
| ArchiveLaws.UnopenableRecorded | server/detection/archive_inspector.py:311-319 | what cannot be opened, unpacked or inflated is recorded once under its name and nothing else changes |
| ArchiveLaws.ReportLists | server/detection/archive_inspector.py:237-274 | the report is the components in order, then the abort exactly when there was one, then every recorded error in order |
| ArchiveLaws.ReportOfTree | server/detection/archive_inspector.py:215-500 | for an affordable tree the report is the components of every leaf and every problem of the tree |
| GrpcRateLimiter.TokenBucket.Consume | server/grpc_rate_limiter.py:46-57 | refill, cap and draw on the fields equal the bucket function |
| GrpcRateLimiter.RateLimitRegistry.Allow | server/grpc_rate_limiter.py:92-101 | decision and new registry equal the registry function, cleanup included |
| GrpcRateLimiter.RateLimitRegistry.GetOrCreate | server/grpc_rate_limiter.py:103-112 | a missing bucket is created full at the method's limit; others are untouched |
| GrpcRateLimiter.RateLimitRegistry.Cleanup | server/grpc_rate_limiter.py:114-122 | removes exactly the buckets within a tenth of a token of their capacity |
| RateLimits.NonInterferenceIff | server/grpc_rate_limiter.py:92-124 | on every interleaved run a key's decisions are those of a bucket of its own without cleanup, if and only if its limit is not one a minute |
| RateLimits.LimitOneIsNotTransparent | server/grpc_rate_limiter.py:98-122 | four calls that show the failure for a limit of one |
| RateLimits.CleanupReclaimsNothing | server/grpc_rate_limiter.py:114-122 | a key whose limit is two or more has a bucket exactly from its first call on, whatever other limits are |
| RateLimits.WindowBound | server/grpc_rate_limiter.py:46-57 | in any window [s, t] at most capacity + refill_rate * (t - s) calls of a key are admitted, none for a limit below one, and for a limit of one at most a tenth of a token more for each cleanup, which run more than 300 seconds apart |
| RateLimits.SpacedCallsAdmitted | server/grpc_rate_limiter.py:46-57 | for every limit of at least one, calls at least 60/rpm seconds apart are never refused |
| RateLimits.RefusedAfterFullMinute | server/grpc_rate_limiter.py:46-57 | for every limit of at least one and every run, a call refused at u has at least limit admitted calls of its key in [u - 60, u] |
| RateLimits.WholeBurst | server/grpc_rate_limiter.py:43-57 | so of the first limit-many calls of a key none is refused, however close together |
| Cef.EscapeIsMapped | server/services/syslog_exporter.py:109-117 | the five sequential replacements equal one map over the characters |
| Cef.UnescapeMapped | server/services/syslog_exporter.py:109-117 | escaping has an inverse on all strings |
| Cef.ExtensionRoundTrip | server/services/syslog_exporter.py:82-104 | splitting at unescaped equals signs recovers the exact key/value list |
| Cef.CefRoundTrip | server/services/syslog_exporter.py:67-106 | a record has exactly eight fields at unescaped bars and gives back header, name and every pair |
| CefReader.CefIdentifies | server/services/syslog_exporter.py:67-106 | a reader that finds values by key and custom fields by label gets back the incident itself, every field of it |
| CefReader.CefHeader | server/services/syslog_exporter.py:36-80 | product fields, name, the signature number of each action and the number of each severity |
| SyslogExporter.MessageRoundTrip | server/services/syslog_exporter.py:153-156 | a message gives back the facility, the syslog severity and the incident itself |
| SyslogExporter.FrameFirst | server/services/syslog_exporter.py:221-232 | a frame at the front of a stream reads as its message, whatever follows |
| SyslogExporter.FramesRoundTrip | server/services/syslog_exporter.py:230-232 | a concatenation of frames reads as exactly the messages framed |
| SyslogExporter.CutFrame | server/services/syslog_exporter.py:221-232 | a frame cut anywhere carries no message |
| SyslogExporter.BeginningReads | server/services/syslog_exporter.py:230-232 | any beginning of a stream of frames reads as a beginning of their messages, and as all of them if and only if no byte of theirs is missing |
| SyslogExporter.SentKeepsLink | server/services/syslog_exporter.py:157-165 | the bytes accepted on a connection are the frames of the incidents reported on it, and after a failure at most a piece of one more |
| SyslogExporter.RunReports | server/services/syslog_exporter.py:167-180 | over any batch the connections carry exactly the incidents reported as sent, in order |
| SyslogExporter.ReceiverUnderstandsReported | server/services/syslog_exporter.py:139-180 | for any beginning of what was accepted on each connection, the receiver understands a beginning of the incidents reported on it, and all incidents reported in the run if and only if no byte of a reported frame was lost |
| SyslogExporter.Exporter.Send | server/services/syslog_exporter.py:139-165 | filter, connect, send and close equal the link function |
| SyslogExporter.Exporter.SendBatch | server/services/syslog_exporter.py:167-180 | sent counts the successes and sent + failed is the batch size |
| SyslogExporter.SeverityTable | server/services/syslog_exporter.py:153-155 | the syslog severity of every CEF severity, as a table |
| SyslogExporter.DroppedIffBelow | server/services/syslog_exporter.py:120-126 | on the five-step scale an incident is dropped exactly when its severity stands before the minimum |
| SyslogExporter.NeverDropped | server/services/syslog_exporter.py:120-126 | off the scale, on either side, nothing is dropped |
| SyslogExporter.SentOutcome | server/services/syslog_exporter.py:139-165 | when a send reports success, when a new connection is made, and that any failure leaves none open |
| DedupKey.BlobText | agent/src/incident_queue.cpp:82-99 | the hashed text, written out |
| DedupKey.BlobIdentifiesIff | agent/src/incident_queue.cpp:82-99 | the hashed text determines the seven fields if and only if no text field contains the separator |
| Decimal.OfInjective | agent/src/incident_queue.cpp:93-93 | different match counts print differently |
| IncidentQueue.RunKeepsInv | agent/src/incident_queue.cpp:112-522 | over any operations and restarts: distinct hashes, current_size equal to the row count, and every row accounted for |
| IncidentQueue.StepKeepsInv | agent/src/incident_queue.cpp:197-522 | each operation keeps that |
| IncidentQueue.RunKeepsHashed | agent/src/incident_queue.cpp:200-277 | over any run of incidents whose hashed fields have no NUL, every row carries the hash of what it stores |
| IncidentQueue.EnqueueKeepsHashedIff | agent/src/incident_queue.cpp:200-277 | an accepted incident keeps that if and only if its cut fields have the same hash; their text is the same if and only if no hashed field has a NUL |
| DedupKey.StoredBlobIff | agent/src/incident_queue.cpp:249-260 | binding the fields as C strings keeps the hashed text if and only if no hashed field has a NUL |
| IncidentQueue.EnqueueKeepsNewest | agent/src/incident_queue.cpp:212-277 | a successful enqueue keeps exactly the newest max_size - 1 old rows beside the new one, also when the table was larger |
| IncidentQueue.SuppressedIffQueued | agent/src/incident_queue.cpp:200-210 | an incident without separators whose digest does not collide with that of a queued row is suppressed if and only if a queued row has the same seven fields |
| IncidentQueue.OrderedSorted | agent/src/incident_queue.cpp:286-293 | the reading order lists exactly the rows, strictly by (queued_at, rowid) |
| IncidentQueue.OrderedDrop | agent/src/incident_queue.cpp:501-522 | deleting the first n rows leaves the rest in the same order |
| IncidentQueue.DrainSplits | agent/src/incident_queue.cpp:281-345 | Drain(a) then Drain(b) is Drain(a + b), rows, table and counters |
| IncidentQueue.DrainRepeatedlyIsOrdered | agent/src/incident_queue.cpp:281-345 | repeated drains empty the queue and concatenate to its sorted content |
| IncidentQueue.PeekThenRemoveIsDrain | agent/src/incident_queue.cpp:349-433 | removing what a peek showed leaves the table a drain leaves, all of them counted |
| IncidentQueueStore.Store.Enqueue | agent/src/incident_queue.cpp:197-277 | duplicate check, eviction, insert and counters equal the queue function |
| IncidentQueueStore.Store.EvictOldest | agent/src/incident_queue.cpp:501-522 | deletes the oldest rows and counts them |
| IncidentQueueStore.Store.Drain | agent/src/incident_queue.cpp:281-345 | the two loops of a drain equal the queue function |
| IncidentQueueStore.Store.Peek | agent/src/incident_queue.cpp:349-388 | returns the oldest rows and changes nothing |
| IncidentQueueStore.Store.Remove | agent/src/incident_queue.cpp:392-409 | removes one row if it is there |
| IncidentQueueStore.Store.RemoveBatch | agent/src/incident_queue.cpp:411-433 | removes row by row and adjusts the size by the rows that were there |
| IncidentQueueStore.Store.IncrementRetry | agent/src/incident_queue.cpp:437-449 | raises one row's retry count |
| IncidentQueueStore.Store.Clear | agent/src/incident_queue.cpp:478-484 | empties the table and the size |
| IncidentQueueStore.Store.Start | agent/src/incident_queue.cpp:112-127 | opening reloads the size; a second start does nothing |
| IncidentQueueStore.Store.Stop | agent/src/incident_queue.cpp:129-132 | closes the database |
| IncidentQueueStore.Store.DeleteEach | agent/src/incident_queue.cpp:325-345 | deleting ids one by one removes exactly them and counts those present |
| IncidentQueueLaws.ArrivesWhole | agent/src/incident_queue.cpp:247-323 | an accepted incident without NULs is in the next complete drain with every field, its own time or else the clock's, and no retries |
| IncidentQueueLaws.DrainTakesOldest | agent/src/incident_queue.cpp:285-300 | a drain hands out as many rows as the limit allows, all for a negative one, by time and then by number |
| IncidentQueueLaws.DrainLeavesLater | agent/src/incident_queue.cpp:285-345 | what a drain leaves is unchanged and comes after everything handed out |
| IncidentQueueLaws.DrainCounts | agent/src/incident_queue.cpp:324-342 | a drain removes its rows and moves no counter but its own and the size |
| IncidentQueueLaws.EnqueueCounts | agent/src/incident_queue.cpp:197-277 | an enqueue counts as one incident and as many evictions as rows had to go, or as one duplicate, or on a closed queue as nothing |
| IncidentQueueLaws.ClosedIgnores | agent/src/incident_queue.cpp:197-484 | a closed queue changes by nothing but being opened |
| IncidentQueueLaws.ClearAndRestart | agent/src/incident_queue.cpp:112-484 | clearing leaves nothing to read, a restart leaves everything with fresh counters |
| IncidentQueueLaws.RowKeepsContent | agent/src/incident_queue.cpp:112-522 | over any operations and restarts a row that is still there has its content, and its retry count is higher by the increments it was given |
| PolicyConditions.HoldsIff | server/detection/policy_evaluator.py:106-125 | each operator compares the number of positions whose match is of the analyzer and of an allowed component |
| PolicyConditions.RuleReacts | server/detection/policy_evaluator.py:106-148 | added matches never un-satisfy a rule of matches and count_gte conditions and never satisfy an unsatisfied one of not_matches and count_lte conditions |
| PolicyConditions.MemberMatchesIff | server/detection/policy_evaluator.py:185-206 | exact, domain and regex comparison; an address is in a domain if and only if what follows its first at sign is the domain or below it |
| PolicyConditions.InGroupIff | server/detection/policy_evaluator.py:175-206 | a group matches if and only if some value of its field matches some member |
| PolicyConditions.AppliesIff | server/detection/policy_evaluator.py:235-245 | a condition of its own decides alone, otherwise one matching group is enough, and without either the exception never applies |
| PolicyConditions.CoversIff | server/detection/policy_evaluator.py:247-272 | a component exception takes out exactly its analyzers in its components, an empty list standing for all |
| PolicyConditions.SingleCondition | server/detection/policy_evaluator.py:508-574 | the whole violation of a policy of one rule with one condition |
| PolicyEvaluator.EvaluatePolicy | server/detection/policy_evaluator.py:508-574 | verdict, matches, count, severity, matched rules and applied exceptions are those of the order-free meaning |
| PolicyEvaluator.EvaluateRules | server/detection/policy_evaluator.py:517-529 | the matching rules and exactly the analyzers their conditions name |
| PolicyEvaluator.FilterMatches | server/detection/policy_evaluator.py:247-272 | keeps exactly the matches the exception does not cover, in order |
| PolicyEvaluator.FindExempting | server/detection/policy_evaluator.py:546-552 | the first entire-message exception that applies, none if and only if the message is not exempt |
| PolicyEvaluator.ApplyComponentExceptions | server/detection/policy_evaluator.py:554-561 | one filter after another leaves exactly the matches no applying component exception covers, and names the exceptions that removed some |
| PolicyEvaluator.CalculateSeverity | server/detection/policy_evaluator.py:576-594 | the tier with the greatest threshold reached, first listed among equals, else the default |
| PolicyEvaluator.SortedPicksTier | server/detection/policy_evaluator.py:585-592 | scanning the stable descending sort finds that tier |
| PolicyEvaluator.Evaluator.AddPolicy | server/detection/policy_evaluator.py:426-435 | appends unless the name is taken |
| PolicyEvaluator.Evaluator.RemovePolicy | server/detection/policy_evaluator.py:437-448 | removes exactly the policy of that name or reports that there is none |
| PolicyEvaluator.Evaluator.EvaluateWithResult | server/detection/policy_evaluator.py:470-506 | one violation for each enabled policy, in order, each with its meaning |
| PolicyLaws.OrderDoesNotMatter | server/detection/policy_evaluator.py:508-574 | permuting rules, groups or exceptions changes neither verdict, matches, count nor severity |
| PolicyLaws.ExceptionsOnlyRelieve | server/detection/policy_evaluator.py:544-574 | adding exceptions never triggers a policy, leaves a subsequence of the matches, and with consistent tiers never raises severity |
| PolicyLaws.SeverityMonotoneIff | server/detection/policy_evaluator.py:576-594 | severity is monotone in the match count if and only if the tiers that can be selected, and the default below them, rise with their thresholds |
| DiscoverScanner.Scanner.WalkDirectory | agent/src/discover_scanner.cpp:227-331 | versions handed over, cache and counters after a walk equal the scan functions |
| DiscoverScanner.Scanner.Visit | agent/src/discover_scanner.cpp:247-328 | the same for one entry |
| DiscoverScanner.IncrementalAgrees | agent/src/discover_scanner.cpp:279-317 | over any sequence of snapshots the set of versions handed over equals that of a scanner without a cache |
| DiscoverScanner.UnchangedIffLastScanned | agent/src/discover_scanner.cpp:605-638 | a file is skipped as unchanged if and only if its last version scanned without an exception is this one |
| DiscoverScanner.CacheIsLastScanned | agent/src/discover_scanner.cpp:624-638 | the cache holds exactly the last such version of each path |
| DiscoverScanner.WalksConcat | agent/src/discover_scanner.cpp:145-163 | several walks are one walk over all their entries |
| DiscoverScanner.CountersAddUp | agent/src/discover_scanner.cpp:252-325 | files examined are the sum of all outcome counters plus the files without a readable, nonzero size and those due while no callback is registered |
| DiscoverLaws.HandedInOrder | agent/src/discover_scanner.cpp:252-317 | what is handed over is, in order and without omission, the version of every regular, not excluded, allowed file of size 1 to max_file_size that the cache does not hold |
| DiscoverLaws.CountersMean | agent/src/discover_scanner.cpp:252-325 | each of the seven counters is the number of entries it stands for |
| FilterPort.MutualExclusion | agent/driver/filter_comm.c:32-69 | under every schedule the counter is connections plus refusals under way, at most one client is connected, and an accepted client finds its own port |
| FilterPort.AdmittedAlone | agent/driver/filter_comm.c:32-36 | a connect is admitted if and only if no other client is counted, and refused otherwise |
| FilterPort.StepKeepsInv | agent/driver/filter_comm.c:32-69 | each access to the shared record keeps the invariant |
| FilterPort.RefusedIffDeparting | agent/driver/akeso_dlp_filter.c:296-305 | under the port's limit of one connection a client is refused if and only if the previous client's disconnect callback is still running after its port was closed, so never when nobody holds the connection |
| FilterPort.AtMostOneRefusal | agent/driver/filter_comm.c:32-36 | on every schedule under that limit at most one refusal is under way and the counter is at most two |
| FilterPort.ReconnectRefused | agent/driver/filter_comm.c:49-69 | such a schedule in which a client is refused although the port is free |

## Left out

- Text: Python strings with lone surrogates, and numeric references of more digits than `int` converts, are not modelled.
- HTML references: which text a reference stands for is a parameter, required only to be shorter than the reference or to leave it as it is.
- Normalizer logging and the `except` branches of the percent and HTML decoders: neither decoder raises in the model.
- Policy stream: database or Redis failures, a crash between commit and announcement, messages published before the listener of a starting server is subscribed, several streams at once (they share nothing but the bus), and the end of a stream.
- Policy ids are assumed never to be used again after deletion, as with random UUIDs.
- Archive member paths: the `archive_path` metadata and message texts; container formats, FileInspector and decompressors are parameters; readers are assumed not to return more bytes than declared, and this is a hypothesis only of the byte-budget results; it excludes zip archives with two members of one name, where reading by name gives the first the data of the last.
- Archives: the compression ratio is compared as a real number.
- Rate limiter: floats are reals; threads are modelled as sequential calls; draws of other than one token.
- Syslog: the network may lose the end of a stream but not change or reorder its bytes; UDP datagrams, `test_connection`, TLS set-up and timestamps in syslog headers.
- Incident queue: SQLite errors, 64-bit limits and the mutex; the hash of a row is any digest of its text.
- PolicyEvaluator.Evaluator.EvaluateWithResult: evaluation errors do not occur in the model, because conditions and regular expressions always give a verdict.
- Policy evaluation: `highest_severity` and `triggered_policies`, simple projections of the result.
- Discover scanner: path and extension filters are parameters; a callback registered or removed during a run of walks, CPU throttling, the stop flag, file owner and date texts, and failures of the cache database.
- Driver port: message handling, and the file-system callbacks that read the shared record.
- REST API, console, database models, transports, services and drivers beyond these files: plumbing without an invariant of its own.
