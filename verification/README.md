# Verified core of the shop

This project models, in Dafny, the self-contained algorithms of a digital-goods shop and proves what they promise:
how continuous integration spreads test files over runners, how a PNG is written and image headers are read back, how
stored secrets survive key rotation, how internet addresses are classified, how requests are rate limited, how an
event log is read in halves, which built assets a page reaches, exact money arithmetic, role permissions, subscription
time and activation codes, the durable queue of the Node runtime, and the ledger of entitlements.

`dafny verify dfyconfig.toml` checks everything. Every file is one module.

| module | models | main result |
|---|---|---|
| Scheduling, TightSchedule, Sorting, ShardPlan | the longest-first partition of test files | balanced by recorded times, at most 4/3 - 1/(3m) of the best makespan, and no less for any m; every runner computes the same partition |
| Words, Crc32, CrcTheory | the bitwise checksum | it is the remainder of the polynomial division, and no change within 32 bits goes unnoticed |
| ByteReading, PngWriter, ImageHeaders, JpegScan, ImageInspection, WebpFiles | the PNG writer and the image check | written files read back; exactly which uploads are accepted, and with which type and size |
| Text, Base64, ActivationCode | digit and base64 texts, activation codes | printing and reading are inverse, on all inputs |
| Keyring | secret encryption with rotating keys | every envelope ever written stays readable over any run; from a raw key, exactly when it has 32 characters; purposes are kept apart |
| IpAddress, Ipv6Spelling, Ipv6Acceptance | address parsing and classes | every textual form of an address gets the same answer; exactly which texts are accepted, and which of them the grammar does not allow |
| RateLimit | the fixed-window limiter | exact admission over all interleaved runs, with rows being deleted |
| BisectingFetch, Reachability | the event reader and the asset worklists | complete reading, exact success; least fixpoints |
| Arithmetic, Money, MoneyInput | fixed-point amounts | least representable results, print and parse inverses |
| BitMask, Access, SystemRbac | permission masks, grants and their stored form | no right comes from nothing; the stored form is canonical |
| SubscriptionClock, Reminders | renewals, traffic periods, the reminder job | the expiry is the latest promised time; however runs overlap, a reminder is claimed once, exactly when some run looks while it is due, and exactly which overlaps claim a point for two near dates |
| NodeQueue | leases, acknowledgements and retries | no message lost, stale settlements without effect, leases that do not overlap, exactly when a message can be claimed again |
| EntitlementLedger, EntitlementHistory, EntitlementCounts | activation, use and refund of grants | the stacked row always equals the rebuild exactly when every delivery and every refund meets a stated condition, whatever the clock does and however long a refund's reads precede its writes; every access counts and none is granted past the limit |

What the platform provides enters as parameters with stated laws: authenticated encryption that undoes itself, JSON that
reads what it wrote and is longer than what it holds, UTF-8, random bytes, the clock, and collation as a consistent
comparator. Loops that update variables are methods proved against specification functions; rows that statements update in
place are fields of a class.

## Where the code does less than it seems

- A raw key of 16 to 31 characters is accepted on its own, but after a rotation the ring is read back as one raw key,
  its own JSON text, and what was sealed before is unreadable for good: `Keyring.RotationKeepsRing` gives the exact
  condition for the ring, `Keyring.RawKeyRun` for everything written before the rotation, over the rest of the run.
- A key identifier with a dot in it makes envelopes that are not recognised: `Keyring.EnvelopeRecognised`.
- A limit below 1 still admits one claim in each window, because the inserting half of the upsert does not look at the
  limit: the capacity in `RateLimit.ClaimVerdict`.
- The address parser overlooks a single colon before the first group, directly behind "::" and behind the last group,
  and takes "::" for no group at all when eight are written: `Ipv6Acceptance.AcceptedExactly` says what is accepted,
  `Ipv6Acceptance.AcceptedOutsideGrammar` which accepted texts have one of these four flaws or a fifth, an octet padded
  with zeros in a dotted tail.
- A message whose consumers never answer is delivered beyond the limit on attempts, since a lease that ran out is taken
  over without looking at the limit: `NodeQueue.LimitPassedByTakeover` and `NodeQueue.LimitCanBePassed`.
- The second activation statement lacks the readiness conditions of the first. When a row already in use meets a
  delivery that is not ready, the grant turns active although its days and limits were not added:
  `EntitlementLedger.ActivationAgreesExactly`.
- Stacking and rebuilding an entitlement can part ways when activation times go back
  (`EntitlementHistory.ClockMustNotGoBack`) or a delivery is not ready (`EntitlementHistory.UntimelyDeliveryParts`). They
  agree exactly under the condition of `EntitlementLedger.DeliveryAgreesExactly`, which does not ask for a forward clock.
- A refund reads the grants and the counts, and writes a row computed from them later, whatever has changed since. Two
  refunds prepared side by side can leave a row that grants access without any active grant
  (`EntitlementHistory.RefundsSideBySide`); `EntitlementLedger.RefundAgreesExactly` gives the exact condition and
  `EntitlementHistory.UndisturbedIsCurrent` one that is easily checked.
- Overlapping runs of the reminder job can claim one point for two dates of a subscription that are seconds apart, because
  the check comes before the insert and the key holds the date: `Reminders.TwinsExactly` and
  `Reminders.MovedDateClaimedTwice`. For one date no overlap does harm (`Reminders.OneDateNeverTwice`).
- Extending a subscription writes an expiry computed from one read before. Of two extensions that overlap, the one
  written first loses its days (`SubscriptionClock.FirstOfTwoIsLost`); `SubscriptionClock.OverlapCountsAll` gives the
  exact condition.
- The reminder job looks at the fifty subscriptions that expire first. With fifty others before it a subscription gets no
  reminder, however often the job runs (`Reminders.CrowdedOut`), and a mail that fails is not tried again
  (`Reminders.QueuedExactly`).
- A comment in the scheduling script calls the fallback weight the median; for an even count it is the upper one of the
  two middle values (`ShardPlan.FallbackIsMedian`).

## Model

| member | source | states |
|---|---|---|
| Scheduling.LeastLoaded | scripts/vitest-shard.ts:68-70 | the shard chosen has the least load and is the first one that has it |
| Scheduling.AveragingBound | scripts/vitest-shard.ts:64-73 | m times the load of the shard that takes the last job is at most the total plus m - 1 times that job |
| Scheduling.ListSchedulingBound | scripts/vitest-shard.ts:60-73 | in any order, m times every load is at most 2m - 1 times the makespan of any other assignment |
| Scheduling.HeavyLastJobFits | scripts/vitest-shard.ts:64-73 | placed longest first, a last job above a third of any attainable makespan leaves its shard within that makespan |
| Scheduling.LongestFirstBound | scripts/vitest-shard.ts:58-73 | placed longest first, 3m times every load is at most 4m - 1 times the makespan of any assignment of the same jobs |
| TightSchedule.BoundIsReached | scripts/vitest-shard.ts:58-73 | the factor is reached for every number m of shards: 4m - 1 on jobs that fit into 3m |
| ShardPlan.FindLeastLoaded | scripts/vitest-shard.ts:68-70 | the reduction over the shard objects finds the first least-loaded one |
| ShardPlan.PlaceFiles | scripts/vitest-shard.ts:60-73 | the loop over mutable shards leaves on each the load and the files of the greedy assignment, and touches nothing else |
| ShardPlan.ComputeShard | scripts/vitest-shard.ts:29-75 | a bad index is refused; otherwise the runner gets its shard of the common plan |
| ShardPlan.PlacementOrderSorted | scripts/vitest-shard.ts:47-67 | the placement order holds the same files, heaviest first, ties by collation and then by code units |
| Sorting.FirstDifferenceDecides | scripts/vitest-shard.ts:47-49 | the sort of the listing compares texts at their first difference, a prefix being smaller |
| ShardPlan.FallbackIsMedian | scripts/vitest-shard.ts:54-56 | more than half of the recorded times are at most the fallback, at least half are at least it |
| ShardPlan.FallbackExactly | scripts/vitest-shard.ts:54-56 | the fallback is the one recorded time with these two counts, and one second when nothing is recorded |
| ShardPlan.WeightsAreTimes | scripts/vitest-shard.ts:56-71 | what the partition weighs is the recorded time of each file, and the fallback for a file without one |
| ShardPlan.SamePartitionOnEveryRunner | scripts/vitest-shard.ts:47-75 | the shard depends on which files and timings exist, never on the order in which they are listed |
| ShardPlan.RunnersCoverTheListing | scripts/vitest-shard.ts:58-75 | the runners 1 to total together hold every listed file as often as it is listed |
| ShardPlan.RunnersAreDisjoint | scripts/vitest-shard.ts:58-75 | with distinct files no file is on two runners |
| ShardPlan.RunnerLoadIsItsFiles | scripts/vitest-shard.ts:71-75 | the index is accepted exactly from 1 to total, and the reported load is the sum over the runner's own files |
| ShardPlan.RunnerLoadIsRecorded | scripts/vitest-shard.ts:54-75 | that load is the sum of the recorded times of these files, with the fallback for each file that has none |
| ShardPlan.RunnerTakesLongestFirst | scripts/vitest-shard.ts:47-72 | of two files of a runner the earlier one has the greater time, or the same and is first by collation and then by code units |
| ShardPlan.PlanIsNearlyOptimal | scripts/vitest-shard.ts:47-75 | no runner's load exceeds 4/3 - 1/(3m) of the best makespan over all assignments of the listed files |
| Crc32.Compute | scripts/seed-acceptance.ts:2144-2152 | the two nested loops compute the checksum that the following rows characterise |
| CrcTheory.PolynomialIsTaps | scripts/seed-acceptance.ts:2149 | the constant 0xedb88320 is the generator of section 3.4 of RFC 2083, coefficients reversed |
| CrcTheory.FeedIsRun | scripts/seed-acceptance.ts:2146-2150 | eight shifts per byte are the division by the generator, one message bit at a time |
| CrcTheory.RunDivides | scripts/seed-acceptance.ts:2146-2150 | the message times x^32, with the start value added, is a quotient times the generator plus the register |
| CrcTheory.DivisionUnique | scripts/seed-acceptance.ts:2146-2150 | no other quotient and no other remainder of degree below 32 will do |
| CrcTheory.CrcIsRemainder | scripts/seed-acceptance.ts:2144-2152 | the checksum is the complement of that remainder for the all-ones start, and of no other |
| CrcTheory.ShiftsInjective | scripts/seed-acceptance.ts:2148-2149 | different registers stay different under any number of shifts |
| CrcTheory.BurstDetected | scripts/seed-acceptance.ts:2144-2152 | messages of any length whose bits differ only inside a window of 32 have different checksums |
| CrcTheory.ChangedBytesDetected | scripts/seed-acceptance.ts:2144-2152 | changing up to four consecutive bytes always changes the checksum |
| PngWriter.ConcatBytes | scripts/seed-acceptance.ts:2132-2142 | the fresh buffer holds the parts one after the other |
| PngWriter.PngChunk | scripts/seed-acceptance.ts:2121-2130 | the buffer is length, type, data and the checksum over type and data |
| PngWriter.CreatePng | scripts/seed-acceptance.ts:2107-2119 | the file is the signature and the three chunks, with the deflated pixels given |
| PngWriter.ChunkReadsBack | scripts/seed-acceptance.ts:2121-2130 | an independent chunk reader recovers type and data and goes on behind the chunk |
| PngWriter.PngReadsBack | scripts/seed-acceptance.ts:2107-2119 | the reader recovers exactly the three chunks, all checksums right |
| PngWriter.HeaderSays | scripts/seed-acceptance.ts:2107-2119 | the header chunk holds both sides and declares eight bits, true colour with alpha, no interlace |
| PngWriter.DamagedChunkRefused | scripts/seed-acceptance.ts:2121-2130 | a chunk changed anywhere within four consecutive bytes of type or data is refused |
| ImageHeaders.WrittenPngReadsBack | src/lib/image.ts:18-57 | every written PNG is recognised as one and its width and height read back |
| ImageHeaders.LosslessFields | src/lib/image.ts:96-104 | the byte arithmetic reads the two packed 14-bit fields of section 3.4 of RFC 9649, for all bytes |
| ImageHeaders.LosslessReadsBack | src/lib/image.ts:96-104 | every size that the lossless layout can express is read back |
| JpegScan.JpegDimensions | src/lib/image.ts:62-81 | the loop ends on every byte string, reads within bounds, and answers as the specified scan does |
| JpegScan.FrameMarkers | src/lib/image.ts:83-87 | frame headers are exactly those that table B.1 of ITU-T T.81 names SOF |
| JpegScan.ScanSkips | src/lib/image.ts:63-79 | fill bytes, markers without length and any segments before the frame are stepped over |
| JpegScan.ScanIsExact | src/lib/image.ts:62-81 | a size is returned exactly when the bytes are skippable parts followed by a frame header of that size |
| JpegScan.StandardFileScans | src/lib/image.ts:62-87 | a file laid out by sections B.1.1 and B.2 of ITU-T T.81 yields its frame's width and height |
| ImageInspection.WrittenPngInspected | src/lib/image.ts:3-60 | a written PNG is accepted exactly when both sides lie between 1 and 10000, with its size |
| ImageInspection.StandardJpegInspected | src/lib/image.ts:3-87 | a standard JPEG closed by EOI is accepted exactly when its frame's size is valid, and with that size |
| ImageInspection.PngAcceptedExactly | src/lib/image.ts:3-60 | a PNG is accepted with a size exactly when it has the signature, IHDR and these sides, and the size is valid |
| ImageInspection.JpegAcceptedExactly | src/lib/image.ts:3-87 | a JPEG is accepted with a size exactly when it goes from SOI to EOI, holds a frame header of that size by the grammar, and the size is valid |
| WebpFiles.FileInspected | src/lib/image.ts:3-116 | a file of section 2 of RFC 9649 that starts with a lossy, lossless or extended header chunk, padded and followed by any chunks, is accepted exactly when its size is valid, and with that size |
| WebpFiles.TruncatedFileRefused | src/lib/image.ts:41-47 | such a file is refused when any of its last bytes is missing |
| WebpFiles.SizeIsExact | src/lib/image.ts:89-117 | a size is read exactly when the bytes hold one of the three headers with that size |
| WebpFiles.WebpAcceptedExactly | src/lib/image.ts:3-116 | a WebP file is accepted with a size exactly when it is a container that declares no more than there is and holds a header of that size, which is valid |
| WebpFiles.InspectedExactly | src/lib/image.ts:3-116 | whatever is uploaded, it is accepted with a type and a size exactly when it is an image of that type and size, from 1 to 10000 each way |
| WebpFiles.ChunkIsRead | src/lib/image.ts:89-117 | each layout is read by its own branch to the size it was written with |
| Base64.LettersLength | src/features/claude-env/domain.ts:105-112 | the unpadded encoding has the length section 5 of RFC 4648 gives it, which is never 1 mod 4 |
| Base64.EncodeIsPadded | src/features/claude-env/domain.ts:108-111 | the padded encoding is the letters plus exactly the padding that their number calls for |
| Base64.DecodeOfEncode | src/lib/secrets.ts:11-19 | decoding undoes encoding on every byte string |
| Base64.SpacesIgnored | src/features/claude-env/domain.ts:147-150 | white space makes no difference anywhere in a text that is decoded |
| Base64.OthersRefused | src/features/claude-env/domain.ts:147-150 | any other character that is no letter and no padding is refused |
| ActivationCode.Base64UrlNoPad | src/features/claude-env/domain.ts:105-112 | the loop computes the URL-safe text of the bytes |
| ActivationCode.UrlSafeIsLetters | src/features/claude-env/domain.ts:105-112 | swapping the alphabet and stripping the padding changes letters one for one and loses none |
| ActivationCode.UrlSafeRoundTrip | src/features/claude-env/domain.ts:144-150 | restoring alphabet and padding recovers every byte string |
| ActivationCode.ActivationCodeRoundTrip | src/features/claude-env/domain.ts:131-157 | decoding an encoded payload returns it with version 1 |
| ActivationCode.CodeReadExactly | src/features/claude-env/domain.ts:144-157 | a code is read as a document exactly when it is the prefix and a text whose bytes are read as that document |
| ActivationCode.LettersCanonical | src/features/claude-env/domain.ts:146-150 | letters decode and encode back to themselves exactly when the unused low bits of the last one are zero |
| ActivationCode.UrlSafeTextDecodes | src/features/claude-env/domain.ts:144-157 | a URL-safe text decodes exactly when its length is not 1 mod 4, and is canonical exactly when its unused bits are zero |
| Keyring.EncryptedIsReadable | src/lib/secrets.ts:44-82 | what is encrypted under a sound ring decrypts to the same text for the same purpose |
| Keyring.StoredForm | src/lib/secrets.ts:20-59 | an envelope is version, key name, nonce and the text sealed under the key derived from purpose and material |
| Keyring.OtherPurposeRefused | src/lib/secrets.ts:20-82 | what is encrypted for one purpose is refused for every other |
| Keyring.MoreKeysOpenMore | src/lib/secrets.ts:61-82 | a ring with all the keys of another opens whatever the other opens, to the same text |
| Keyring.NextKeyIdIsFresh | src/lib/secrets.ts:94-98 | the identifier a rotation picks is in no case already in the ring |
| Keyring.NextKeyIdExactly | src/lib/secrets.ts:94-98 | a rotation takes the number after the greatest one among identifiers that are a k and digits |
| Keyring.KeyringReadExactly | src/lib/secrets.ts:131-151 | a keyring is accepted exactly when it is a ring with long keys and a present current one, or has 16 characters or more |
| Keyring.RefusedExactly | src/lib/secrets.ts:61-82 | exactly which secrets are refused as incomplete, for a missing key, or as not decrypting |
| Keyring.RotationKeepsRing | src/lib/secrets.ts:92-104 | after a rotation the ring is read back with all old keys exactly when every key has 32 characters or more |
| Keyring.CreatedRingIsHealthy | src/lib/secrets.ts:84-90 | a newly created ring can start a run |
| Keyring.RunKeepsSecretsReadable | src/lib/secrets.ts:44-129 | over any run of rotations, encryptions and re-encryptions every envelope ever written decrypts to its text |
| Keyring.EncryptionsAreRecorded | src/lib/secrets.ts:44-59 | whatever a run encrypts can be decrypted to its text at the end of the run |
| Keyring.ReencryptRecords | src/lib/secrets.ts:111-129 | a secret that does not name the current key is written once more under it, with the same text and purpose |
| Keyring.RunKeepsPurposesApart | src/lib/secrets.ts:20-129 | over any run, what it writes for one purpose is refused for every other from then on |
| Keyring.LegacyStartIsHealthy | src/lib/secrets.ts:66-80 | a raw key of 32 characters or more with any legacy secrets can start a run too |
| Keyring.RawKeyRun | src/lib/secrets.ts:44-151 | over any run from any accepted raw key, what was written before the first rotation is readable until then, and over the rest of the run exactly when that key has 32 characters or more |
| Keyring.LegacySurvivesRotation | src/lib/secrets.ts:131-151 | a legacy secret survives the first rotation exactly when the raw key has 32 characters or more |
| Keyring.EncryptedSurvivesRotation | src/lib/secrets.ts:44-82 | what was encrypted under a raw key, for any purpose, survives the first rotation exactly when that key has 32 characters or more |
| Keyring.ShortKeyReplaced | src/lib/secrets.ts:138-150 | a ring with a shorter key is taken for one raw key |
| Keyring.ReencryptionIsExact | src/lib/secrets.ts:111-129 | nothing is rewritten exactly when the envelope names the current key; a rewritten one names it, says the same, and is not rewritten again; failure is exactly that of decryption |
| Keyring.EnvelopeRecognised | src/lib/secrets.ts:59-67 | an envelope is recognised as a versioned one exactly when its key identifier has no dot |
| IpAddress.PublicIpv4Ranges | src/lib/ip-address.ts:24-40 | the tests on octets exclude exactly thirteen blocks of consecutive addresses |
| Ipv6Acceptance.EveryFormParses | src/lib/ip-address.ts:42-68 | every textual form of section 2.2 of RFC 4291 parses to the 128-bit number of its eight groups |
| Ipv6Spelling.PublicRange | src/lib/ip-address.ts:70-74 | public means inside 2000::/3 and outside 2001:db8::/32 |
| Ipv6Acceptance.SpellingDoesNotMatter | src/lib/ip-address.ts:3-10 | however an address is written, in brackets or not, the answer depends on its groups alone |
| Ipv6Spelling.QuadIsWritten | src/lib/ip-address.ts:16-22 | a dotted quad that parses is four decimal numbers below 256 in the standard notation exactly when no octet is padded with zeros |
| Ipv6Spelling.QuadParsedExactly | src/lib/ip-address.ts:16-22 | a text is a dotted quad of four numbers exactly when it writes them with one to three digits each, below 256 |
| Ipv6Spelling.QuadIsClassified | src/lib/ip-address.ts:3-22 | four decimal octets, with or without leading zeros, are classified by the numbers they write |
| Ipv6Acceptance.PlainAcceptedExactly | src/lib/ip-address.ts:53-68 | without a dotted tail a text parses to a number exactly when it is eight groups, or at most eight around "::", with at most one stray colon at each of three places, and the groups make that number |
| Ipv6Acceptance.AcceptedExactly | src/lib/ip-address.ts:42-68 | the same for all texts, with the last two groups dotted or not |
| Ipv6Acceptance.AcceptedOutsideGrammar | src/lib/ip-address.ts:42-68 | an accepted text is outside section 2.2 of RFC 4291 exactly when it has a single colon at an end, three colons in a row, "::" beside eight groups, or an octet padded with zeros |
| Ipv6Acceptance.AcceptedIsClassified | src/lib/ip-address.ts:3-10 | every accepted text, flawed or not, is classified by its groups alone |
| Ipv6Acceptance.StrayColonAccepted | src/lib/ip-address.ts:52-57 | eight groups behind a stray colon parse as if it were not there, outside the grammar |
| Ipv6Acceptance.ThreeColonsAccepted | src/lib/ip-address.ts:53-57 | ":::" parses to 0, outside the grammar |
| RateLimit.CounterTable.ClaimFixedWindow | src/server/rate-limit.ts:10-36 | the upsert changes one row, and the verdict is the one the following rows characterise |
| RateLimit.StoredCount | src/server/rate-limit.ts:14-20 | over any run a row exists exactly when its window was claimed, and holds the lesser of claims and capacity |
| RateLimit.StoredTimes | src/server/rate-limit.ts:14-20 | a row was last updated by its last allowed claim, and expires two windows after its own began |
| RateLimit.ClaimVerdict | src/server/rate-limit.ts:10-36 | a claim is allowed exactly when fewer than the limit came before it for its bucket and window, with that count and the start of the window, a whole multiple of its length |
| RateLimit.AllowedIsExact | src/server/rate-limit.ts:10-36 | the claims allowed in a window are exactly the lesser of its attempts and the limit |
| RateLimit.AnyIntervalBound | src/server/rate-limit.ts:10-11 | any interval of one window's length, ends included, holds at most twice the limit |
| RateLimit.DeletionChangesNothing | src/server/scheduled/maintenance.ts:68-72 | deleting any expired rows at any time changes no verdict while clocks agree to within one window |
| RateLimit.PurgedExactly | src/server/scheduled/maintenance.ts:68-72 | a chosen row is gone exactly when it had expired, and no other row is touched |
| BisectingFetch.Reader.EventsBetween | scripts/reconcile-email-delivery.ts:99-145 | the recursive reader with its counter behaves as the specified reading and never sends more than 128 queries |
| BisectingFetch.QueryAnswers | scripts/reconcile-email-delivery.ts:104-134 | a query answers with the first 500 events of the window, or all of them when there are fewer |
| BisectingFetch.WindowAcceptedExactly | scripts/reconcile-email-delivery.ts:34-35 | a window is accepted exactly when it is not empty, no longer than a week, and ends no more than a minute from now |
| BisectingFetch.FetchIsComplete | scripts/reconcile-email-delivery.ts:135-144 | a normal return holds every event of the window as often as the log does, twice exactly for a time at which a window was halved |
| BisectingFetch.FetchSucceedsExactly | scripts/reconcile-email-delivery.ts:104-139 | the reading returns normally exactly when no window of a second is full and the queries needed fit the limit |
| BisectingFetch.QueriesAreSplits | scripts/reconcile-email-delivery.ts:140-144 | the queries of a complete reading are one more than twice the halvings |
| BisectingFetch.DepthBound | scripts/reconcile-email-delivery.ts:136-144 | a window of at most 2^d seconds is halved at most d times deep |
| BisectingFetch.WeekDepth | scripts/reconcile-email-delivery.ts:34-35 | in an accepted window the recursion is at most 20 deep |
| Reachability.RouteClosure | scripts/bundle-report.ts:136-151 | the mark-on-pop loop ends on cyclic graphs and marks exactly what is reachable from the known preloads |
| Reachability.ScalarClosure | scripts/bundle-report.ts:233-244 | the mark-on-push loop marks exactly what is reachable from the entry set |
| Reachability.LoadedDirectly | scripts/bundle-report.ts:136-151 | a name ending in .js loads the built assets it refers to, any other only itself |
| Reachability.LoadedForAReason | scripts/bundle-report.ts:136-151 | nothing is loaded that is neither a seed nor built and referred to by a loaded script |
| Reachability.LeastClosedIsReachable | scripts/bundle-report.ts:136-151 | being reachable by a path and belonging to the least closed set are the same |
| Reachability.BothLoopsAgree | scripts/bundle-report.ts:233-244 | from the same known seeds both loops give the same least closed set |
| Money.RoundingModes | src/lib/money.ts:3-21 | "down" is the floor, "up" the ceiling, and "reject" succeeds exactly when they agree |
| Money.DecimalExactly | src/lib/money.ts:1-16 | a text is an amount exactly when it is a whole number without leading zeros, and digits behind a point or none |
| Money.RefusedExactly | src/lib/money.ts:3-21 | exactly which precisions and texts are refused |
| Money.PrintedUnits | src/lib/money.ts:23-30 | the printed text is the canonical decimal of the units, without trailing zeros |
| Money.UnitsRefusedExactly | src/lib/money.ts:23-30 | only negative units are refused |
| Money.NegativePrecision | src/lib/money.ts:23-30 | with a negative precision the point stands behind as many digits from the front |
| Money.DecimalRoundTrip | src/lib/money.ts:3-30 | reading a printed number of units returns it in every rounding mode |
| Money.QuantizeIsLeastMultiple | src/lib/money.ts:32-51 | the step is one unit of the last place kept; the amount is the least multiple of it not below the value, and prints with at most the given number of places |
| Money.QuantizeRefusedExactly | src/lib/money.ts:32-45 | negative amounts are refused, and precisions outside 0 to 30 |
| Money.ConvertIsLeast | src/lib/money.ts:53-66 | the result is the least number of output units not below the exact product of the two decimals |
| Money.ConvertSucceedsExactly | src/lib/money.ts:53-66 | a conversion succeeds exactly when both texts are read exactly and the output has no negative precision |
| Money.DivideIsLeast | src/lib/money.ts:68-84 | the result is the least number of output units not below the exact quotient of the two decimals |
| Money.DivideSucceedsExactly | src/lib/money.ts:68-84 | a division succeeds exactly when both texts are read exactly, the rate is not zero and the scale is not negative |
| Money.UnitsThereAndBack | src/lib/money.ts:53-84 | on units, converting and dividing back overshoots by less than one output unit over the rate plus one amount unit |
| Money.ConvertThereAndBack | src/lib/money.ts:53-84 | the same for the printed texts: never less than the amount, and within that bound |
| MoneyInput.MinorRoundTrip | src/lib/money-input.ts:1-27 | reading what is shown for any digits gives the same number, without leading zeros |
| MoneyInput.ZerosDropped | src/lib/money-input.ts:1-10 | zeros in front go as long as a digit follows |
| MoneyInput.NothingShown | src/lib/money-input.ts:1-27 | nothing is shown as nothing and read back as no entry |
| MoneyInput.BlanksListed | src/lib/money-input.ts:16-17 | blanks are the white space and line ends of ECMA-262 |
| MoneyInput.MajorIsExact | src/lib/money-input.ts:12-27 | the digits read are the typed number with its point moved, in canonical form |
| MoneyInput.EntryReadExactly | src/lib/money-input.ts:12-27 | blanks are no entry; any other is read exactly when it is written as an amount of this precision between blanks, and then as that amount |
| MoneyInput.MajorStable | src/lib/money-input.ts:1-27 | what was read is shown and read back unchanged |
| BitMask.CoversExactly | src/features/access/permissions.ts:24-25 | a mask of registered actions covers a requirement exactly when the requirement is in range and each of its bits is set |
| BitMask.SignedIsCongruent | src/features/access/rbac-bitmask.ts:23-37 | the operators answer with the number from -2^31 up to 2^31 that is equal modulo 2^32 |
| Access.MergeRolePermissions | src/features/access/permissions.ts:6-16 | the loop computes the merged masks |
| Access.MergedRights | src/features/access/permissions.ts:6-16 | a bit is in a merged mask exactly when some row of that module carries it |
| Access.NormalizedBits | src/features/access/rbac-bitmask.ts:33-37 | normalising keeps exactly the registered bits of a whole number of at most 53 bits, and nothing of any other |
| Access.GrantedIsImplied | src/features/access/permissions.ts:18-26 | root meets every requirement, anyone else exactly when it names registered actions only and each is implied by some row |
| Access.AssertGrantsWithinActor | src/features/access/permissions.ts:28-43 | the check passes exactly for root, or when every right requested is a right the actor holds |
| Access.NoRightsFromNothing | src/features/access/permissions.ts:28-43 | over any run of checked grants by others than root, every right anyone holds was held by someone at the start |
| Access.GrantedExactly | src/features/access/permissions.ts:28-43 | a grant within the actor's own rights gives the target exactly what was requested, beside or in place of what it had; any other changes nothing |
| SystemRbac.MaskThereAndBack | src/features/access/rbac-bitmask.ts:23-31 | reading a mask as names and writing it back keeps exactly its registered bits |
| SystemRbac.NamesThereAndBack | src/features/access/rbac-bitmask.ts:23-31 | writing names as a mask and reading it back keeps the registered names in their order, each once |
| SystemRbac.NormalizeSystemPermissionGrants | src/features/access/system-rbac.ts:54-67 | the two loops, skipping unknown modules and empty masks, list the merged masks of the known modules |
| SystemRbac.NormalizedRights | src/features/access/system-rbac.ts:54-67 | the stored form has exactly the rights of the grants for known modules |
| SystemRbac.NormalFormIsCanonical | src/features/access/system-rbac.ts:54-67 | two lists of grants are stored alike exactly when they give the same rights on known modules |
| SystemRbac.NormalizingTwice | src/features/access/system-rbac.ts:54-67 | storing the stored form changes nothing |
| SystemRbac.OrderAndRepeatsDoNotMatter | src/features/access/system-rbac.ts:54-67 | lists with the same rows, in any order and number, are stored alike |
| SystemRbac.StoredFormAnswers | src/features/access/system-rbac.ts:69-79 | the stored form grants exactly what the merged grants do, for known modules in which some right is held |
| SystemRbac.StoredFormAgrees | src/features/access/system-rbac.ts:69-79 | for known modules and a requirement of at least one action the two answers are the same |
| SubscriptionClock.ExpiryIsLatestPromise | src/features/claude-env/domain.ts:464-471 | whatever the times, the expiry after a run of renewals is the latest of: the start plus all days, and each renewal's time plus the days from it on |
| SubscriptionClock.ExpiryIsTheSum | src/features/claude-env/domain.ts:464-471 | when each renewal reads what the one before wrote, no bought day is lost, and the expiry is the start plus the days bought exactly when it never lapsed |
| SubscriptionClock.PaidStretchesDoNotOverlap | src/features/claude-env/domain.ts:464-471 | each renewal pays for a stretch of exactly its days, starting no earlier than itself and after all earlier stretches |
| SubscriptionClock.SplitPurchases | src/features/claude-env/domain.ts:464-471 | days bought at one moment in pieces or at once come to the same expiry |
| SubscriptionClock.StoredIsBuiltOn | src/features/claude-env/server/admin-actions.ts:532-593 | when reads and writes overlap, the stored expiry is what the renewals that the last write builds on come to |
| SubscriptionClock.OverlapCountsAll | src/features/claude-env/server/admin-actions.ts:532-593 | the stored expiry counts every renewal at all times exactly when each read what was stored as it wrote, or both had run out by then |
| SubscriptionClock.FirstOfTwoIsLost | src/features/claude-env/server/admin-actions.ts:583-593 | of two extensions in time that both read before either writes, the days of the first are lost |
| SubscriptionClock.PeriodsTile | src/features/claude-env/domain.ts:473-480 | every moment from activation on lies in exactly one 30-day period, whose start is the result |
| SubscriptionClock.FirstPeriod | src/features/claude-env/domain.ts:473-480 | until activation the first period is meant |
| SubscriptionClock.PeriodsAbut | src/features/claude-env/domain.ts:473-480 | the end of a period is the start of the next |
| SubscriptionClock.DueReminderPoint | src/features/claude-env/domain.ts:366-375 | the loop finds the nearest point reached, and none once expired |
| SubscriptionClock.DaysLeftIsLeast | src/features/claude-env/domain.ts:377-380 | the days left are the least number of days that reach the expiry |
| SubscriptionClock.DueFollowsDaysLeft | src/features/claude-env/domain.ts:366-380 | 7 is due exactly with 7 or 6 days left, 5 with 5 or 4, 3 with 3 to 1, and nothing otherwise |
| Reminders.ReminderTable.SendExpiryReminders | src/features/claude-env/server/reminders.ts:37-119 | with any inserts of other runs before each check and between it and the insert, the run leaves the claims of the specified job, and tries mails for exactly those it added |
| Reminders.RunInSchedule | src/features/claude-env/server/reminders.ts:61-87 | in any interleaving, every run, cut off or not, is that job among some inserts of others, and wins what its looks add |
| Reminders.LookedAtByRank | src/features/claude-env/server/reminders.ts:46-59 | a candidate is listed when fewer than fifty others expire no later, and only when fewer than fifty expire earlier |
| Reminders.LookedAtExactly | src/features/claude-env/server/reminders.ts:46-59 | with no other expiring at that moment it is listed exactly when fewer than fifty expire earlier |
| Reminders.CandidateByDaysLeft | src/features/claude-env/server/reminders.ts:46-59 | a candidate is active and has one to seven days left |
| Reminders.ListingExists | src/features/claude-env/server/reminders.ts:46-59 | the query has an answer for any subscriptions |
| Reminders.RemindersFall | src/features/claude-env/domain.ts:366-375 | looked at in the order of time, claims for one expiry date only move from 7 to 5 to 3, none twice |
| Reminders.ClaimsFollowLooks | src/features/claude-env/server/reminders.ts:61-87 | however runs overlap, the claims for a date of a subscription are those of the looks at it, in the order in which they end |
| Reminders.ClaimedExactly | src/features/claude-env/server/reminders.ts:61-87 | however runs overlap, a reminder is claimed exactly when some run looked at the subscription while it was due, and once |
| Reminders.ClaimsAreDue | src/features/claude-env/server/reminders.ts:46-87 | every claim was made while the subscription was active, for its date then and the point its days left call for |
| Reminders.QueuedExactly | src/features/claude-env/server/reminders.ts:61-137 | a mail is handed over exactly when that works for the first look that ends while the reminder is due |
| Reminders.EveryReminderIsClaimed | src/features/claude-env/server/reminders.ts:37-87 | starting runs at least every two days, with fewer than fifty others expiring no later, claims each of the three once, overlapping or not, and in order when looks end in order |
| Reminders.CrowdedOut | src/features/claude-env/server/reminders.ts:46-59 | with fifty others expiring earlier in every run nothing is ever claimed |
| Reminders.OneClaimForOneDate | src/features/claude-env/server/reminders.ts:79-88 | over any interleaving no two claims share subscription, date and point |
| Reminders.TwinsExactly | src/features/claude-env/server/reminders.ts:64-87 | over any interleaving, two claims of one point for dates less than a day apart exist exactly when one was inserted between the check and the insert of the other, for a different date |
| Reminders.NeverTwice | src/features/claude-env/server/reminders.ts:61-87 | when no insert comes between a check and its insert, no point is claimed twice for dates less than a day apart, however dates move |
| Reminders.OneDateNeverTwice | src/features/claude-env/server/reminders.ts:32-36 | a subscription with one date in all looks at it is never reminded of a point twice, however runs overlap |
| Reminders.MovedDateClaimedTwice | src/features/claude-env/server/reminders.ts:64-87 | two runs a minute apart that both check before either inserts, the date moved by five seconds: the point is claimed twice |
| NodeQueue.Table.Claim | src/server/runtime/node/queue.ts:90-111 | all and only the selected messages are leased, each handed out once with its own token and count |
| NodeQueue.ClaimedByRank | src/server/runtime/node/queue.ts:326-331 | a message that can be claimed is claimed exactly when fewer than the limit come before it, by availability, then age, then id |
| NodeQueue.ClaimedInOrder | src/server/runtime/node/queue.ts:326-331 | the i-th message claimed is the one with i before it |
| NodeQueue.SelectionExists | src/server/runtime/node/queue.ts:326-331 | the query has an answer for any table |
| NodeQueue.Table.Ack | src/server/runtime/node/queue.ts:113-115 | a message is deleted exactly when its current lease is presented |
| NodeQueue.Table.Retry | src/server/runtime/node/queue.ts:117-136 | a message is released, or dead at the limit, exactly when its current lease is presented |
| NodeQueue.BatchIsARun | src/server/runtime/node/queue.ts:90-111 | claiming a batch at once is a run of single claims, so what holds over runs holds for batches |
| NodeQueue.BatchDeliveries | src/server/runtime/node/queue.ts:90-111 | a batch hands each of its messages out once, numbered by the attempts stored |
| NodeQueue.NoMessageIsLost | src/server/runtime/node/queue.ts:90-136 | over any run a message sent is in the table, with as many attempts as deliveries, or was acknowledged with its latest delivery |
| NodeQueue.StaleSettlementsDoNothing | src/server/runtime/node/queue.ts:340-347 | settling with any but the latest delivery changes nothing, and settling twice is settling once |
| NodeQueue.LeasesDoNotOverlap | src/server/runtime/node/queue.ts:326-339 | between two deliveries of a message, unless a retry under the first lease gave it back, that lease has passed; late retries of earlier deliveries make no difference |
| NodeQueue.ClaimableAfterLease | src/server/runtime/node/queue.ts:326-339 | unsettled, a message that was handed out can be claimed exactly from the end of its lease on |
| NodeQueue.ClaimableAfterRetry | src/server/runtime/node/queue.ts:117-136 | a message that was given back can be claimed exactly from the end of the delay on, or never when that was its last attempt |
| NodeQueue.RetryWaits | src/server/runtime/node/queue.ts:117-136 | over any run no message is handed out before the delay of its retry is over |
| NodeQueue.ClaimableAfterSend | src/server/runtime/node/queue.ts:138-150 | a message that was sent can be claimed exactly from the end of its delay on, and not before it was sent |
| NodeQueue.AttemptsAreLimited | src/server/runtime/node/queue.ts:117-126 | deliveries exceed the limit at most by the number of leases that ran out |
| NodeQueue.LimitPassedByTakeover | src/server/runtime/node/queue.ts:332-339 | a claim passes the limit exactly when it takes over a lease of the last attempt or later |
| NodeQueue.LimitCanBePassed | src/server/runtime/node/queue.ts:332-339 | a run with a limit of one in which a message is delivered twice |
| NodeQueue.DeadStaysDead | src/server/runtime/node/queue.ts:126-135 | a dead message was delivered at least as often as the limit says and is never touched again |
| NodeQueue.NothingIsStuck | src/server/runtime/node/queue.ts:326-331 | a message can be claimed at exactly the times from its availability and lease end on, unless it is dead |
| NodeQueue.DelayDoubles | src/server/runtime/node/queue.ts:289-293 | the first delay is the base, each is twice the one before until the cap, then it stays |
| EntitlementLedger.Ledger.ActivateGrant | src/features/entitlements/server/ledger.ts:88-160 | the two statements change row and grant as one step of the state machine |
| EntitlementLedger.Ledger.ConsumeAccess | src/features/entitlements/server/ledger.ts:186-242 | an access counts, and exhausts the row at its limit, exactly when the guard holds |
| EntitlementLedger.Ledger.TakeUse | src/features/builds/server/jobs.ts:279-319 | a use counts, and exhausts the row at its limit, exactly when the guard holds |
| EntitlementLedger.Ledger.ReturnUse | src/features/builds/server/job-actions.ts:66-83 | a use is given back, and an exhausted row is in use again exactly when it has time, accesses and uses left |
| EntitlementLedger.PrepareRefund | src/features/entitlements/server/ledger.ts:278-336 | the row to be written is computed from the counts and the grants as they were read |
| EntitlementLedger.Ledger.WriteRefund | src/features/entitlements/server/ledger.ts:268-336 | the order's grants are refunded and the row becomes what was prepared, whatever has happened since |
| EntitlementLedger.Ledger.MarkExpired | src/server/scheduled/maintenance.ts:26-29 | an active row past its end is marked expired and nothing else changes |
| EntitlementLedger.RebuildExpiry | src/features/entitlements/server/ledger.ts:365-376 | the loop chains the durations, or answers with no end when some grant has none |
| EntitlementLedger.MoveToEnd | src/features/entitlements/server/ledger.ts:365-376 | grants activated at the same moment may be listed in any order without changing what they come to |
| EntitlementLedger.TiesDoNotMatter | src/features/entitlements/server/ledger.ts:285-292 | any two listings by activation time come to the same expiry, totals and absence of limits |
| EntitlementLedger.ArrangementExists | src/features/entitlements/server/ledger.ts:285-292 | the active grants can always be listed by activation time |
| EntitlementLedger.PlacedStacks | src/features/entitlements/server/ledger.ts:365-376 | a grant rebuilt at its own time adds its whole duration exactly when no later grant found the earlier ones run out |
| EntitlementLedger.PlacedAbsorbed | src/features/entitlements/server/ledger.ts:365-376 | it adds nothing exactly when it lies before a grant that found everything run out |
| EntitlementLedger.DeliveryAgreesExactly | src/features/entitlements/server/ledger.ts:88-160 | whatever its time, a ready activation keeps agreement exactly when there is no active grant, or the earliest is not later and there is no end or the later ones never lapsed; an unready one exactly when there are no limits and no end or a lapse takes the grant up |
| EntitlementLedger.ReadyActivationAgrees | src/features/entitlements/server/ledger.ts:95-150 | stacking a ready grant onto a row that agrees with its grants gives again what a rebuild would give |
| EntitlementLedger.UnreadyActivation | src/features/entitlements/server/ledger.ts:151-158 | a grant that turns active unready leaves the row in agreement exactly when it has no end and no limits |
| EntitlementLedger.ActivationAgreesExactly | src/features/entitlements/server/ledger.ts:88-160 | activation keeps row and grants in agreement exactly when it does not skip a row in use that has an end or a limit |
| EntitlementLedger.RefundAgreesExactly | src/features/entitlements/server/ledger.ts:260-336 | whatever was listed and whenever, the row agrees after the writes exactly when what was listed (or the row as it stood, when the order had nothing) rebuilds like the grants that are left |
| EntitlementLedger.UndisturbedRefundAgrees | src/features/entitlements/server/ledger.ts:260-336 | it is enough that the active grants of other orders are the same at the writes as at the listing, and that the order had been found to have grants or has no active one |
| EntitlementLedger.ActivationInBetween | src/features/entitlements/server/ledger.ts:285-306 | a grant activated between listing and writes does no harm exactly when it is not the first, there are no limits, and no end or a lapse that takes it up |
| EntitlementLedger.StatusFromStaleCounts | src/features/entitlements/server/ledger.ts:279-317 | the status from counts read earlier is another than from fresh ones exactly when a grant is left with time, and only one of the readings is at a limit |
| EntitlementLedger.RefundUndoesActivation | src/features/entitlements/server/ledger.ts:245-339 | refunding a renewal, with nothing between its reads and writes, restores expiry, limits and activation time to what they were before it |
| EntitlementHistory.StepAgreesExactly | src/features/entitlements/server/ledger.ts:88-339 | at any time and with reads at any earlier states, a step keeps agreement exactly when a delivery in it meets its condition and a refund in it is current; a row that agrees is in use exactly while a grant is active |
| EntitlementHistory.AgreesStep | src/features/entitlements/server/ledger.ts:88-339 | when no delivery was later, every step keeps agreement exactly when it is timely and current |
| EntitlementHistory.AlwaysAgreesExactly | src/features/entitlements/server/ledger.ts:88-339 | over any history, whatever its clock did and wherever its refunds had read, the row is at all times the rebuild exactly when every delivery and every refund met those conditions |
| EntitlementHistory.UndisturbedIsCurrent | src/features/entitlements/server/ledger.ts:260-336 | a refund is current when the active grants of other orders did not change between its listing and its writes |
| EntitlementHistory.RowIsAlwaysTheRebuild | src/features/entitlements/server/ledger.ts:88-339 | over any run of timely deliveries whose times do not go back, current refunds, accesses, uses and expiries the row is the rebuild of its active grants |
| EntitlementHistory.AccessIsPaidFor | src/features/entitlements/server/ledger.ts:189-203 | in such a state access is granted exactly when the active grants, rebuilt, have time and accesses left |
| EntitlementHistory.UntimelyDeliveryParts | src/features/entitlements/server/ledger.ts:151-158 | a run from a new entitlement whose last delivery is not ready: the grant is active and the row does not know of it |
| EntitlementHistory.ClockMustNotGoBack | src/features/entitlements/server/ledger.ts:113-121 | a history from a new entitlement whose clock goes back once: the row says 20, the grants come to 15 |
| EntitlementHistory.RefundsSideBySide | src/features/entitlements/server/ledger.ts:260-336 | a run of timely deliveries in which two refunds read before either writes: no grant is active, and access is given until 15 |
| EntitlementCounts.GrantsAreCounted | src/features/entitlements/server/ledger.ts:189-203 | over any history the stored counts are the accesses granted, and the uses granted and not given back |
| EntitlementCounts.AccessesWithinLimit | src/features/entitlements/server/ledger.ts:189-203 | from any state on, while the limit stays, no more accesses are granted than were left |
| EntitlementCounts.UsesWithinLimit | src/features/builds/server/jobs.ts:279-319 | from any state on, while the limit stays, uses taken and not given back do not pass it |
| EntitlementCounts.AccessExhausts | src/features/entitlements/server/ledger.ts:192-203 | the last access exhausts the row at once and every later one is refused; an earlier one leaves the status alone |
| EntitlementCounts.UseExhausts | src/features/builds/server/jobs.ts:279-319 | a use exhausts the row exactly when no use is left, and every later one is refused |
| EntitlementCounts.GivingBackRevives | src/features/builds/server/job-actions.ts:66-83 | giving a use back revives an exhausted row exactly when it can then be accessed and used |
| EntitlementCounts.ExpiringTakesNothing | src/server/scheduled/maintenance.ts:26-29 | marking rows as expired refuses nothing that was granted before, and leaves no active row that has run out |
| EntitlementCounts.RefundedStatus | src/features/entitlements/server/ledger.ts:306-317 | after a refund the row is revoked without grants, expired when they have run out, active when it can be accessed and used, and exhausted otherwise |
| EntitlementCounts.UseIsPaidFor | src/features/builds/server/jobs.ts:279-282 | while row and grants agree, a use is granted exactly when the active grants, rebuilt, have time and uses left |

## Left out

- Platform services: encryption, digests, JSON, UTF-8, deflate, random bytes, clocks, HTTP and the database engine are parameters with laws, or single atomic steps.
- Characters are code units; lower-casing and white space outside ASCII and the listed blanks are not modelled.
- Floating point: durations are whole tenths of a second, day counts exact quotients, and key numbers unbounded integers.
- Collation is any consistent comparator; which one the platform uses does not matter to the results.
- scripts/vitest-shard.ts: the recording of timings and the processes it starts.
- scripts/seed-acceptance.ts: fixtures, statements and pixel colours; the deflated pixels are given.
- src/lib/image.ts: the digest and the file extension; bytes are a sequence, so views with an offset are not modelled.
- scripts/reconcile-email-delivery.ts: everything outside the reader; the log does not change while it is read, and a failing request is not modelled.
- scripts/bundle-report.ts: how references are found in the text of an asset, the reading cache, and the checks on sizes and names.
- src/features/access: role storage and the messages of refusals; a run of grants has one target for each write.
- src/features/claude-env: signatures, suppliers, parsing of prices and dates, mail texts, recipients and alerts.
- src/server/runtime/node/queue.ts: timers, wake-ups, concurrency limits, stored errors and bodies; identifiers and tokens are fresh by assumption.
- src/features/entitlements/server/ledger.ts: one entitlement at a time; the joins that admit a purchase, revocation times, event rows with their keys, and the conditions under which the statements of a refund run at all.
- Orders, wallets, payments, supplier orders and notifications: statements over many tables, for which this project has no model.
- User interface, routes, translations and error texts: lookup tables and rendering.
- Keyring.RunKeepsSecretsReadable: starts from rings whose keys have 32 characters or more; what happens with shorter raw keys is stated by Keyring.RawKeyRun.
- EntitlementHistory.RowIsAlwaysTheRebuild: requires activation times that do not go back; EntitlementHistory.AlwaysAgreesExactly states the condition without that.
- Reminders.EveryReminderIsClaimed: for one expiry date, with all other dates of the subscription at least a day away; a renewal starts a new one. Reminders.TwinsExactly covers dates that move by less.
- SubscriptionClock.ExpiryIsTheSum: for renewals whose reads and writes do not overlap; SubscriptionClock.OverlapCountsAll covers the others.
