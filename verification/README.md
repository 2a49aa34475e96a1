# UDP transport options: a Dafny model

This project models the core of a userspace implementation of RFC 9868 (Transport Options for UDP)
and proves what its parts promise each other: one's-complement checksums, the option checksum (OCS),
IPv4 and UDP headers, the option serializer and parser, FRAG splitting and reassembly, the receive
pipeline, and the public send and receive functions. On top of these sits a state machine of a
sending peer, a receiving peer and a network that loses, repeats, reorders and mixes in foreign
traffic.

The model has two layers. Functions on values say what each operation computes; the mutable objects
and loops of the implementation are methods and classes (`Checksum`, `OptionsIter`, `OptionsBuilder`,
`IdentificationGenerator`, `Partial`, `ReassemblyCache`, in-place buffers) whose contracts tie their
new state and results to those functions. The theorems are about the functions, so they hold of both.

The main results:

- `ProtocolRuns.DeliveriesAreFaithful`: in every run of the protocol, under every receive policy,
  whatever datagram of the sender arrives is decoded without error, and every payload handed up from
  it is the payload, options and reports of one submitted message, never a mixture.
- `ProtocolRuns.FragmentationIsTransparent`: in every run, the pieces of a fragmented message are
  buffered until the last missing one, which gives the delivery of the message sent whole up to OCS
  reports, or nothing if it exceeds one IPv4 packet.
- `Policy.PolicyAgreement`: over runs in which the receiver decodes everything under one fixed policy,
  the answer to every piece and the exact condition under which it agrees with the message sent whole.
  `PolicyExample.PoliciesTellPiecesApart` is a run in which it does not.
- `DeliveryRuns.ExactCompletion`: the same for the cache alone, one-fragment datagrams included, with
  arbitrary options on each fragment, whose size limits are coalesced to order-independent minima.
- `ReassemblyInvariant.ReachableCachesAreSound`, `ResourceBound`, `PackingArgument` and
  `ReassemblyRuns.CompletionsAreTimely`: invariant, memory bound and timeout over all runs of a cache.
- On any input, honest or not: `ReceiveFacts.HeadersAcceptedIff`, `OptionsReadIffTrusted` and
  `DataWithheldIff`, `ScanExact.ScanToTheEnd` and `ScanStopsAt`, `InsertionFacts.RefusedIff` and
  `AcceptedIsStored`, and `PolicyFacts.ReceivedIff` say exactly what is accepted, trusted, withheld,
  reported, stored and handed up; `Corruption.DamagedOptionsAreIgnored` and `DamagedDataAreRefused` say
  what one damaged byte leads to.
- `OptionSerializer.SerializerRoundTrip` and `RebuildIsIdentical`; `FragSplit.SplitIsOptimal` and
  `SplitSucceedsIff`; `Assembly.LegacyReceiversAccept`; `OptionChecksum.SingleByteCorruption`.

Conventions. `Instant` and `Duration` are natural numbers of nanoseconds with saturating difference.
CRC32C is a parameter: every statement holds for any function of the user data. `usize` is `nat`;
16-bit and 32-bit fields are bounded subset types and their overflow checks are explicit. The
identification seed is an arbitrary value.

Where code and comments differ, the code is followed. The body limit of the serializer is 65526 bytes
for every body, because the 16-bit bound of Frag. Start is applied with or without FRAG
(src/options/serialize.rs:155-160). With a zero timeout a new partial already counts as expired
(`ReassemblyRuns.ZeroTimeoutKeepsNothing`). The check that fragment data lies inside the datagram
(src/recv/pipeline.rs:340-344) can never fail (`PipelineFacts.FragmentDataIsInside`).

## Model

| member | source | states |
|---|---|---|
| `Checksums.Checksum.constructor` | src/wire/checksum.rs:18-20 | a new accumulator represents the empty sum |
| `Checksums.Checksum.AddU16` | src/wire/checksum.rs:40-46 | after adding a word the eagerly folded field is the representative of the grown plain sum |
| `Checksums.Checksum.AddSlice` | src/wire/checksum.rs:28-36 | adding bytes adds their big-endian words, an odd last byte padded with zero |
| `Checksums.Checksum.Sum` | src/wire/checksum.rs:49-55 | the result is the 16-bit representative of the plain sum |
| `Checksums.Checksum.Finish` | src/wire/checksum.rs:63-65 | the complement of that representative |
| `Checksums.InternetChecksum` | src/wire/checksum.rs:71-75 | the complemented sum of a whole byte string |
| `Checksums.FoldIsRep` | src/wire/checksum.rs:40-55 | end-around folding yields zero exactly for zero and otherwise the residue in 1..65535 |
| `Checksums.FoldKeepsRep` | src/wire/checksum.rs:40-46 | folding early, after any addition, does not change the final value |
| `Checksums.RepAllOnes` | src/wire/checksum.rs:49-55 | a sum folds to 0xFFFF exactly when it is a positive multiple of 65535 |
| `Checksums.WordSumConcat` | src/wire/checksum.rs:28-36 | the sum is additive over a split at an even offset |
| `Checksums.WordOrderIndependent` | src/wire/checksum.rs:28-46 | byte strings whose words are permutations of each other have the same sum and the same folded value |
| `OptionChecksum.Compute` | src/options/ocs.rs:43-60 | the body in place becomes the body with its OCS stored, bytes in front untouched |
| `OptionChecksum.Validate` | src/options/ocs.rs:66-88 | the four verdicts on a received body |
| `OptionChecksum.ValidIffComputed` | src/options/ocs.rs:43-88 | a body is valid exactly when its stored OCS is non-zero and what a sender would store |
| `OptionChecksum.PatchedIsValid` | src/options/ocs.rs:43-88 | every body a sender finishes is valid for every UDP checksum field |
| `OptionChecksum.SingleByteCorruption` | src/options/ocs.rs:66-88 | changing any one byte of a finished body is never valid and lets no option through when the UDP checksum is in use |
| `WireHeaders.WriteIp` | src/wire/ip.rs:99-111 | the header is written in place with its checksum, the rest of the buffer untouched |
| `WireHeaders.IpRoundTrip` | src/wire/ip.rs:48-111 | every written header is read back unchanged and passes its checksum |
| `WireHeaders.PseudoHeaderSum` | src/wire/ip.rs:127-134 | the accumulator holds the pseudo-header sum |
| `WireHeaders.WriteUdp` | src/wire/udp.rs:54-59 | eight bytes are written at an offset and nothing else |
| `WireHeaders.UdpRoundTrip` | src/wire/udp.rs:33-59 | every written UDP header is read back unchanged |
| `WireHeaders.ComputeChecksum` | src/wire/udp.rs:73-89 | the wire value of the UDP checksum |
| `WireHeaders.UdpChecksum` | src/wire/udp.rs:73-89 | it is never zero and makes the covered sum a multiple of 65535 |
| `Assembly.WriteHead` | src/socket/send.rs:64-77 | headers and user data in front of an untouched rest |
| `Assembly.WriteBody` | src/socket/send.rs:78-82 | the options body is copied in and its OCS patched in place |
| `Assembly.AssembleDatagram` | src/socket/send.rs:25-92 | the buffer built step by step is the specified datagram |
| `Assembly.LegacyReceiversAccept` | src/socket/send.rs:38-82 | every assembled datagram also sums to 0xFFFF over the whole IP payload with the length taken from IP |
| `OptionKinds.FragRoundTrip` | src/options/typed.rs:204-237 | every FRAG value is decoded to what was encoded |
| `OptionParser.OptionsIter.constructor` | src/options/parse.rs:32-40 | a new iterator has all items ahead of it |
| `OptionParser.OptionsIter.Next` | src/options/parse.rs:62-144 | items are yielded one by one, nothing after EOL or an error, and the counter is the longest run of NOPs yielded |
| `OptionParser.ItemIsLocal` | src/options/parse.rs:62-144 | an item is decided by the bytes it occupies |
| `OptionParser.ItemIffFramed` | src/options/parse.rs:62-144 | an option is yielded exactly where it is framed as such, in the default or the extended form |
| `OptionParser.BadItems` | src/options/parse.rs:62-144 | which error anything else is |
| `SenderFacts.AcceptedOptions` | src/options/serialize.rs:110-153 | exactly which Kinds and lengths are accepted, and the reason for each refusal |
| `SenderFacts.FirstOffender` | src/options/serialize.rs:95-107 | the complaint is about the first offending option |
| `SenderFacts.BuilderErrors` | src/options/serialize.rs:65-87 | a builder fails with that complaint or because the body is too long |
| `SenderFacts.BodyIsInOrder` | src/options/serialize.rs:173-183 | FRAG, APC, MDS, MRDS, REQ, RES, then the others by ascending Kind |
| `OptionSerializer.ValidationIsExact` | src/options/serialize.rs:95-153 | validation passes exactly when every option is acceptable alone and there is at most one FRAG |
| `OptionSerializer.SortIsStable` | src/options/serialize.rs:66-67 | the canonical order is a stable permutation by rank |
| `OptionSerializer.StableOrderIsUnique` | src/options/serialize.rs:66-67 | only one order is such a permutation |
| `OptionSerializer.PredictedLengthIsExact` | src/options/serialize.rs:185-220 | the predicted length is the emitted length, and prediction fails exactly beyond the limit |
| `OptionSerializer.SerializedBodyLen` | src/options/serialize.rs:206-220 | the length loop computes the predicted length |
| `OptionSerializer.EncodeOption` | src/options/serialize.rs:222-246 | the default or extended TLV form is appended |
| `OptionSerializer.PatchLoop` | src/options/serialize.rs:155-171 | Frag. Start is rewritten in every FRAG and nowhere else |
| `OptionSerializer.EmitLoop` | src/options/serialize.rs:71-86 | the loop emits OCS field, alignment, TLVs, EOL and fill |
| `OptionSerializer.OptionsBuilder.ValidatedOptions` | src/options/serialize.rs:95-108 | the first complaint in the caller's order |
| `OptionSerializer.OptionsBuilder.FinishBody` | src/options/serialize.rs:65-87 | the builder returns the specified body or error |
| `OptionSerializer.EmitParses` | src/options/serialize.rs:71-86 | the emitted bytes parse to exactly the emitted options, every TLV at an even offset, closed by EOL |
| `OptionSerializer.FinishSucceedsIff` | src/options/serialize.rs:65-171 | exactly when a body can be built, with the effective limit of 65526 bytes |
| `OptionSerializer.SerializerRoundTrip` | src/options/serialize.rs:65-246 | parsing a built body gives the stable rank-sorted input with Frag. Start pointing behind the body |
| `OptionSerializer.RebuildIsIdentical` | src/options/serialize.rs:65-87 | rebuilding from the parsed options reproduces the same bytes |
| `FragSplit.IdentificationGenerator.NextId` | src/frag/split.rs:91-95 | an issued identification exceeds every earlier one, and an exhausted generator stays so |
| `FragSplit.IssueIsFresh` | src/frag/split.rs:68-96 | an issued identification was never in use and stays used |
| `FragSplit.IssuedAscend` | src/frag/split.rs:68-96 | over any number of requests the values ascend by one from the seed and end only after the largest |
| `FragSplit.ChunkLoop` | src/frag/split.rs:220-249 | the loop computes the specified ranges |
| `FragSplit.RangesTile` | src/frag/split.rs:220-249 | the ranges tile the tail in order, fit their capacities, only the last is terminal and the others are non-empty |
| `FragSplit.SplitIsOptimal` | src/frag/split.rs:220-249 | no list of fragment lengths within the capacities covers the tail with fewer fragments |
| `FragSplit.Split` | src/frag/split.rs:110-183 | the splitter returns the specified fragments or error |
| `FragSplit.SplitShape` | src/frag/split.rs:110-183 | on success the fragments are the slices of payload, pad and options under one identification, within the budget |
| `SenderFacts.SplitComplaints` | src/frag/split.rs:110-183 | which error the splitter returns, the first that applies |
| `FragSplit.SplitSucceedsIff` | src/frag/split.rs:110-183 | splitting succeeds exactly on splittable input, and two of its errors never occur |
| `Reassembly.ObserveLoop` | src/frag/reassembly.rs:506-542 | per-fragment options are folded into the coalesced ones |
| `Reassembly.ObserveFailuresLoop` | src/frag/reassembly.rs:582-588 | failed Kinds are collected once each |
| `Reassembly.Partial.constructor` | src/frag/reassembly.rs:308-322 | an empty partial that starts its clock |
| `Reassembly.Partial.HasDuplicate` | src/frag/reassembly.rs:423-446 | exact duplicates, including an empty terminal fragment |
| `Reassembly.Partial.RecordTerminal` | src/frag/reassembly.rs:365-396 | terminal end and UDP Length are recorded, checked or refused |
| `Reassembly.Partial.StoreFragment` | src/frag/reassembly.rs:398-418 | an admitted fragment is counted, observed and inserted in order |
| `Reassembly.Partial.CompleteNow` | src/frag/reassembly.rs:463-493 | the cursor walk joins the segments exactly when it reaches the terminal end |
| `Reassembly.Partial.Insert` | src/frag/reassembly.rs:328-421 | one fragment changes the partial or ends it as specified |
| `Reassembly.ReassemblyCache.constructor` | src/frag/reassembly.rs:34-39 | an empty cache with the given limits |
| `Reassembly.ReassemblyCache.Collect` | src/frag/reassembly.rs:193-196 | exactly the expired partials go |
| `Reassembly.ReassemblyCache.Discard` | src/frag/reassembly.rs:149-156 | exactly one key goes |
| `Reassembly.ReassemblyCache.InsertWithoutRetaining` | src/frag/reassembly.rs:158-191 | with no room, a fragment completes alone or is refused, and nothing is stored |
| `Reassembly.ReassemblyCache.Insert` | src/frag/reassembly.rs:82-147 | outcome and new cache of an insertion, partials not aliased |
| `InsertionFacts.RepeatsAreKept` | src/frag/reassembly.rs:337-340 | a repeat changes nothing but the record of OCS use |
| `InsertionFacts.RefusedIff` | src/frag/reassembly.rs:341-396 | any other fragment ends the datagram exactly when there are too many, a byte position is taken, or it contradicts what is known of the end, and with which reason |
| `InsertionFacts.AcceptedIsStored` | src/frag/reassembly.rs:398-493 | what is not refused is stored, and completes the datagram exactly when every position before the known end is covered |
| `InsertionFacts.KeptBytesAreHeld` | src/frag/reassembly.rs:328-421 | a retained partial holds every byte of the fragment at its position |
| `InsertionFacts.ConflictAborts` | src/frag/reassembly.rs:356-358 | a fragment on a taken position that repeats nothing aborts and frees the key |
| `InsertionFacts.MisplacedAborts` | src/frag/reassembly.rs:92-103 | impossible offsets and oversized ends abort and free the key |
| `InsertionFacts.FullCacheStoresNothing` | src/frag/reassembly.rs:158-190 | a full cache completes a lone fragment or refuses it, with which reason, and stores nothing |
| `ReassemblyInvariant.PackingArgument` | src/frag/reassembly.rs:98-103 | a fragment that passed the end check and overlaps nothing cannot exceed the byte limit |
| `ReassemblyInvariant.SearchIndexIsUnique` | src/frag/reassembly.rs:404-407 | whatever index the binary search reports for an absent start is the modelled insertion index |
| `ReassemblyInvariant.AdmittedStartIsAbsent` | src/frag/reassembly.rs:356-358 | the start of a fragment that overlaps nothing is absent, so the search never finds it |
| `ReassemblyInvariant.InsertKeepsInvariant` | src/frag/reassembly.rs:328-421 | segments stay non-empty, sorted and disjoint, the byte total is their length, terminal data are consistent and coverage is incomplete |
| `ReassemblyInvariant.CompletionNeverClashes` | src/frag/reassembly.rs:463-493 | the overlap abort inside completion is unreachable |
| `ReassemblyInvariant.InsertRetention` | src/frag/reassembly.rs:82-156 | the key is retained exactly when the outcome is incomplete, and other keys change only by expiry |
| `ReassemblyInvariant.InsertKeepsCache` | src/frag/reassembly.rs:82-147 | an insertion keeps every partial sound and the number of partials bounded |
| `ReassemblyInvariant.ReachableCachesAreSound` | src/frag/reassembly.rs:82-196 | every cache reached by any operations with any clock is sound |
| `ReassemblyInvariant.ResourceBound` | src/frag/reassembly.rs:90-196 | partials never exceed their limit and buffered bytes never exceed that limit times the datagram size less eight |
| `ReassemblyRuns.CompletionsAreTimely` | src/frag/reassembly.rs:193-196 | with a forward clock, every byte of a completed datagram arrived for its key within less than the timeout and 120 seconds |
| `ReassemblyRuns.ExpiredIff` | src/frag/reassembly.rs:324-326 | a partial expires after the timeout or 120 seconds from its first fragment |
| `ReassemblyRuns.ZeroTimeoutKeepsNothing` | src/frag/reassembly.rs:324-326 | with a zero timeout an insertion meets an empty cache |
| `Coalescing.ObserveIsLeast` | src/frag/reassembly.rs:505-542 | coalesced size limits are the least announced |
| `Coalescing.ObserveTakesLast` | src/frag/reassembly.rs:529-538 | of several REQ or RES tokens the last well-formed one observed wins |
| `Coalescing.LatestTokenWins` | src/frag/reassembly.rs:505-575 | a new fragment's last token replaces that of earlier fragments, and a completion hands up exactly the token then known |
| `Coalescing.LimitsHandedUp` | src/frag/reassembly.rs:544-575 | a completion hands up exactly the coalesced limits in the format of their options |
| `Coalescing.ObservedFailures` | src/frag/reassembly.rs:581-592 | the collected failures are exactly those seen |
| `FragmentDelivery.InsertIsFaithful` | src/frag/reassembly.rs:328-493 | a partial fed with slices of one tail holds only slices of it and completes only to it |
| `FragmentDelivery.NextFragment` | src/frag/reassembly.rs:328-493 | given the fragments already in, the next one completes exactly when it is the last missing one, with the least announced limits and only tokens that were carried |
| `FragmentDelivery.MinimumIsUnique` | src/frag/reassembly.rs:505-575 | the coalesced size limits do not depend on the order of arrival |
| `DeliveryRuns.Waiting` | src/frag/reassembly.rs:82-196 | until then the partial holds exactly what arrived, in any order, with duplicates and other traffic |
| `DeliveryRuns.FirstArrives` | src/frag/reassembly.rs:82-147 | the first fragment completes a datagram in one fragment, with or without room, and otherwise starts the wait |
| `DeliveryRuns.ExactCompletion` | src/frag/reassembly.rs:328-493 | a datagram in one fragment completes at once; otherwise every arrival is incomplete until the last missing distinct fragment, which yields the datagram and frees the key |
| `OptionScan.FragmentOptionLimitLoop` | src/recv/pipeline.rs:707-744 | how far the options of a fragment reach |
| `OptionScan.ParseOptionsLoop` | src/recv/pipeline.rs:500-697 | limit and scan together |
| `OptionScan.ScanLoop` | src/recv/pipeline.rs:528-697 | the scan with its seen flags, reports and stops |
| `ScanExact.ScanToTheEnd` | src/recv/pipeline.rs:528-697 | when nothing stops the scan, every option has the status due to it and exactly the successful ones are delivered: APC by the checksum of the data, the others by length, repetitions ignored |
| `ScanExact.ScanStopsAt` | src/recv/pipeline.rs:528-697 | the first item that does not pass, and what each kind of stop makes of what was gathered |
| `ScanExact.DeliveredApcIsRight` | src/recv/pipeline.rs:785-793 | no parse delivers an APC other than the checksum of the user data |
| `ScanExact.DatagramAreaIsScanned` | src/recv/pipeline.rs:707-744 | without a usable FRAG in front the whole area is scanned |
| `ScanExact.FragmentAreaIsCut` | src/recv/pipeline.rs:707-744 | a FRAG must point behind itself and into the area, which is then cut there, otherwise the fragment has failed |
| `ScanFacts.BytesBehindTheEndAreIgnored` | src/recv/pipeline.rs:500-697 | with no FRAG before it, bytes behind the first EOL or UNSAFE option cannot change the result |
| `ScanFacts.FragmentDataIsNotParsed` | src/recv/pipeline.rs:707-744 | bytes at or behind an in-bounds Frag. Start cannot change options, reports or flags |
| `ScanFacts.FragStartIsInside` | src/recv/pipeline.rs:707-744 | the FRAG of a sound fragment points into the option area |
| `ScanFacts.ReportConservation` | src/recv/pipeline.rs:528-697 | one report per reportable option in wire order, and delivery of exactly the successful ones, one of a Kind |
| `ScanFacts.UnsafeHasACause` | src/recv/pipeline.rs:528-697 | data are withheld only for an UNSAFE option or a FRAG of unknown format on the wire |
| `FragmentSetFacts.FailedKindsAreNeverDelivered` | src/recv/pipeline.rs:424-459 | a Kind that failed on any fragment is reported failed and not delivered from the fragment set |
| `FragmentSetFacts.MergeIsExact` | src/recv/pipeline.rs:369-396 | what reassembly adds to options, reports and OCS reports |
| `FragmentSetFacts.KeepDistributes` | src/recv/pipeline.rs:424-432 | the fragment options kept are in their order |
| `ReceivePath.ParseHeaders` | src/recv/pipeline.rs:211-249 | header, length and UDP checksum checks and their errors |
| `ReceivePath.ParseSurplus` | src/recv/pipeline.rs:251-308 | pad, OCS and option parsing, or delivery without options |
| `ReceivePath.FragmentOptionFailures` | src/recv/pipeline.rs:461-469 | the failed Kinds of one fragment, once each |
| `ReceivePath.ReassembledDatagram` | src/recv/pipeline.rs:471-498 | the rebuilt datagram, or none if it does not fit |
| `ReceivePath.MergeFragmentOptions` | src/recv/pipeline.rs:424-432 | failed Kinds are removed in front of the datagram's options |
| `ReceivePath.MergeFragmentReports` | src/recv/pipeline.rs:434-459 | failures, then new successes, then the datagram's reports |
| `ReceivePath.Classify` | src/recv/pipeline.rs:309-356 | what becomes of a datagram whose options were read |
| `ReceivePath.ProcessInner` | src/recv/pipeline.rs:205-412 | result and new cache of one datagram, with at most one recursive pass |
| `ReceivePath.Receive` | src/recv/pipeline.rs:201-203 | the pipeline with reassembly allowed |
| `ReceivePath.Decode` | src/api/mod.rs:433-489 | the receive policy around the pipeline |
| `ReceiveFacts.HeadersAcceptedIff` | src/wire/ip.rs:48-97 | the headers accepted, as conditions on the bytes with checksums as equations, and the fields read from them |
| `ReceiveFacts.HeaderComplaints` | src/recv/pipeline.rs:211-249 | which error bad headers get, the first that applies |
| `ReceiveFacts.OptionsReadIffTrusted` | src/recv/pipeline.rs:265-308 | options are read exactly when the pad is zero and the OCS completes the sum, or no checksum is in use |
| `ReceiveFacts.UntrustedOptionsAreIgnored` | src/recv/pipeline.rs:265-308 | other options leave no trace in delivery or cache |
| `ReceiveFacts.DatagramIsDelivered` | src/recv/pipeline.rs:309-334 | what a datagram that is no fragment delivers |
| `ReceiveFacts.FailedFragmentIsDropped` | src/recv/pipeline.rs:317-322 | a failed fragment is dropped with what was stored under its key |
| `ReceiveFacts.FragmentIsReassembled` | src/recv/pipeline.rs:335-399 | under which key, with which bytes, options, failures and OCS use a sound fragment is inserted, and what follows |
| `ReceiveFacts.SecondPassIsExact` | src/recv/pipeline.rs:336-338 | the pass over a rebuilt datagram in full |
| `ReceiveFacts.DataWithheldIff` | src/recv/pipeline.rs:323-334 | user data and options are withheld exactly when an UNSAFE option or a FRAG of unknown format is met before any error, short option or FRAG |
| `ReceiveFacts.EmptyDatagramWithholds` | src/recv/pipeline.rs:323-334 | the same without user data, with its reports |
| `Corruption.DamagedOptionsAreIgnored` | src/options/ocs.rs:66-88 | one changed byte behind the user data of any datagram sent: the data are delivered alone and the cache is as before |
| `Corruption.DamagedDataAreRefused` | src/recv/pipeline.rs:235-249 | one changed byte of the user data of any datagram sent is refused |
| `Corruption.DamagedIpHeaderIsRefused` | src/wire/ip.rs:48-97 | so is one changed byte of the IPv4 header, the first aside |
| `Corruption.FixedIpFields` | src/wire/ip.rs:99-111 | the constant fields of every header sent |
| `PipelineFacts.RebuiltIsReadable` | src/recv/pipeline.rs:471-498 | a rebuilt datagram passes all header, length and checksum checks |
| `PipelineFacts.SecondPassIsTotal` | src/recv/pipeline.rs:335-397 | a second pass never errs, buffers or adds a partial |
| `PipelineFacts.CompletionsAreRebuilt` | src/recv/pipeline.rs:359-368 | a completion of a sound cache is rebuilt exactly when it fits one IPv4 packet |
| `PipelineFacts.OnlyHeadersFail` | src/recv/pipeline.rs:205-412 | the pipeline fails exactly on bad headers and then leaves the cache alone |
| `PipelineFacts.OtherTuplesOnlyExpire` | src/recv/pipeline.rs:205-412 | a datagram affects partials of other 4-tuples only through expiry |
| `PipelineFacts.UserDataIsSelfContained` | src/recv/pipeline.rs:251-334 | a datagram with user data leaves the cache alone and delivers that data, or none for an option it may not ignore |
| `PipelineFacts.FragmentDataIsInside` | src/recv/pipeline.rs:340-344 | slicing the data of a sound fragment cannot fail |
| `Api.FindDuplicate` | src/api/mod.rs:613-630 | the table-driven check finds exactly the duplicate reportable Kinds |
| `SendPath.SerializeOptions` | src/api/mod.rs:491-502 | automatic APC and raw options through the builder |
| `SendPath.AssembleLimited` | src/api/mod.rs:523-565 | one datagram within the length limits |
| `SendPath.CheckSendOptions` | src/api/mod.rs:581-598 | which options a send refuses, and with which reason |
| `SendPath.BuildDatagrams` | src/api/mod.rs:362-402 | the datagrams of one send, or the first error |
| `SendPath.BuildPeerDatagrams` | src/api/mod.rs:411-428 | the generator moves only when fragmentation needs an identification |
| `SenderFacts.PermittedIff` | src/api/mod.rs:581-598 | what a send may ask for |
| `SenderFacts.SendComplaints` | src/api/mod.rs:362-402 | which error a send gets, the first that applies |
| `SenderFacts.AssembleComplaints` | src/api/mod.rs:523-553 | one datagram is assembled exactly when it fits both limits |
| `SenderFacts.PeerComplaints` | src/api/mod.rs:411-428 | when the generator moves, and what an exhausted one leads to |
| `Sending.BuildSucceedsIff` | src/api/mod.rs:362-402 | exactly when a send succeeds |
| `Sending.BuildEmits` | src/api/mod.rs:362-402 | a successful send is one whole datagram or all pieces, each within the limit |
| `EndToEnd.SentIsReadable` | src/socket/send.rs:25-92 | every assembled datagram passes the receiver's header checks |
| `EndToEnd.SentReads` | src/recv/pipeline.rs:251-308 | its payload and option area are found where the assembler put them, with a valid OCS |
| `EndToEnd.RebuiltReads` | src/recv/pipeline.rs:471-498 | the reassembled form is read the same way with the OCS unused |
| `EndToEnd.FragmentIsInserted` | src/recv/pipeline.rs:335-358 | a piece made by the splitter leads to exactly one insertion of its own slice |
| `OptionDelivery.CanonicalAreaParses` | src/recv/pipeline.rs:500-697 | an area of permitted options is read completely, each option reported by its own status |
| `OptionDelivery.BodyIsRead` | src/api/mod.rs:491-502 | the options of a permitted send come back in canonical order |
| `OptionDelivery.KnownOptionsArrive` | src/api/mod.rs:491-502 | every option of a known Kind is delivered when the APC is computed or absent |
| `Messages.WholeIsDelivered` | src/recv/pipeline.rs:402-412 | an unfragmented message is delivered as intended and leaves the cache alone |
| `Messages.CompletionIsDelivered` | src/recv/pipeline.rs:359-397 | re-feeding a completed message delivers it as intended |
| `Messages.PieceIsProcessed` | src/recv/pipeline.rs:335-397 | one piece is buffered, dropped, or completes its message |
| `Protocol.PeerEmits` | src/api/mod.rs:411-428 | a peer's datagrams are the message whole, or its pieces under a fresh identification |
| `Protocol.SubmitKeepsRecords` | src/frag/split.rs:91-95 | a send reuses no identification and changes no earlier message |
| `Protocol.PieceArrives` | src/recv/pipeline.rs:335-397 | in any reachable state a piece completes exactly its own message or nothing |
| `Protocol.DecodeOnCache` | src/api/mod.rs:433-489 | "drop all" keeps every datagram out of the cache, any other policy leaves the cache to the pipeline and filters its answer |
| `Protocol.NextKeepsInv` | src/api/mod.rs:298-340 | every step under any policy keeps wire, records and partials consistent |
| `ProtocolRuns.RunsAreSound` | src/api/mod.rs:298-340 | every run keeps the invariant and records only what it submitted |
| `ProtocolRuns.DeliveriesAreFaithful` | src/recv/pipeline.rs:205-412 | over whole runs and under any policy, every datagram of the sender is decoded without error and every payload from it is one submitted message with its options and reports |
| `ProtocolRuns.FragmentationIsTransparent` | src/api/mod.rs:362-489 | a sole first piece and the last missing piece yield what the whole datagram would, every other piece is buffered |
| `PolicyFacts.ReceivedIff` | src/api/mod.rs:433-489 | exactly when a payload reaches the application, on any datagram |
| `PolicyFacts.ReceivedMeetsPolicy` | src/api/mod.rs:641-668 | whatever reaches the application has every required option successful and unfailed, and a good OCS if one is required |
| `PolicyFacts.OcsRequiredFilters` | src/api/mod.rs:657-668 | with "require OCS" a datagram without surplus area or with untrusted options is filtered and leaves the cache alone |
| `PolicyFacts.OtherAnswersPassThrough` | src/api/mod.rs:433-489 | errors, buffering and dropping under a policy |
| `Policy.WholeIsDecoded` | src/api/mod.rs:433-489 | what a policy answers to a message sent whole |
| `Policy.PieceIsFiltered` | src/api/mod.rs:439-445 | "drop all" filters every piece and leaves the cache as it was |
| `Policy.CompletedAgrees` | src/api/mod.rs:447-489 | without "drop all" a completed message gets the answer of the whole one exactly when it has options, or some option is required, or no OCS is |
| `Policy.FilteredAgrees` | src/api/mod.rs:433-489 | with "drop all" the whole message is filtered exactly when it has options, or some option is required, or an OCS is |
| `Policy.DropAllNeverBuffers` | src/api/mod.rs:439-445 | in no run does "drop all" put anything into the cache |
| `Policy.PolicyAgreement` | src/api/mod.rs:362-489 | in every run under one fixed policy: without "drop all" pieces are buffered until the last missing one, with it all are filtered, and in both cases exactly when the answer agrees with decoding the message sent whole |
| `PolicyExample.PoliciesTellPiecesApart` | src/api/mod.rs:433-489 | a run in which "require OCS" alone filters the whole message but not its pieces, and "drop all" alone the pieces but not the whole message |

## Left out

- Raw sockets, read deadlines, ICMP handling and the userspace port filter: kernel behaviour and simple comparisons.
- Command-line tools, examples, evaluators, fuzz targets and the empirical study of network paths.
- Logging and sampled warnings: no effect on results; the NOP counter that feeds one of them is modelled.
- The CRC32C algorithm: a parameter of the model.
- The operating system's randomness for identification seeds: the seed is arbitrary.
- `build_datagram`, `push_typed` and the typed option structs other than FRAG: thin wrappers around the builder and the assembler modelled here.
- `usize` overflow checks in length computations: lengths are unbounded, the 16-bit limits are explicit.
- The loop over a policy's required options and OCS reports (src/api/mod.rs:641-668): stated as quantifiers.
- The standard library's sort by rank: modelled as an insertion sort, which `OptionSerializer.StableOrderIsUnique` shows to be the only possible result.
- The binary search for the insertion index: modelled by its result, which `ReassemblyInvariant.SearchIndexIsUnique` shows to be the only one.
- The hash map of partials: a map field; iteration order is not observable in the results modelled.
- Protocol.NextKeepsInv: one sending peer per 4-tuple, whose identifications come from its generator as in the implementation's peer; other traffic of the same 4-tuple forged by third parties is covered only by the cache and pipeline lemmas.
