# Duskcue: a verified model of the server's algorithms and protocols

Duskcue is a media server. Most of its code moves data between a database, HTTP and FFmpeg. Between
those lie small algorithms and step protocols on which much depends: a pattern language compiled to
regular expressions, a sealed policy loader, backup retention, an event ring with a connection
limit, a file watcher's hand-off, overlay geometry, the playback decision, collection
reconciliation, a condition language, and a configuration fingerprint. This project models them in
Dafny and proves what they keep, over all inputs and all runs.

`dafny verify dfyconfig.toml` checks everything.

| file | models |
|---|---|
| `RegexSubset.dfy` | the regular expressions that the pattern compiler can emit: syntax, parser, language, and the order in which the engine prefers matches |
| `FilenamePatterns.dfy` | `.media-match` filename patterns and their compilation |
| `PatternCaptures.dfy` | the season and episode numbers that a match yields |
| `PolicyLoader.dfy`, `PolicyWire.dfy` | the seccomp policy loader: partial reads, checksum, acceptance, acknowledgment; the launcher's encoder and decoder |
| `Retention.dfy`, `DumpNames.dfy` | dump retention; printing and reading of dump names |
| `EventBus.dfy` | the replay ring, the connection counter, the channel table |
| `FsWatcher.dfy` | the watcher's hand-off protocol and the scan cooldown |
| `Dilation.dfy`, `QueueStacking.dfy` | text strokes and the stacking of overlays |
| `PlaybackDecision.dfy` | the video decision and the target resolution |
| `Collections.dfy` | grouping, deduplication and reconciliation of collections |
| `Conditions.dfy` | the evaluator and validator of JSON condition trees |
| `ConfigFingerprint.dfy` | the bytes under the overlay configuration's hash |
| `Options.dfy`, `Text.dfy` | the option type; trimming and ASCII case |

## How the models are built

Code that changes things step by step is imperative here: `PatternToRegex`, `ReadExact`,
`CleanupPgDumps`, `DilateMask`, `ResolveQueuePositions`, `EvaluateVideo`, `GroupedResults` and the
like are methods with the program's loops, and the event ring and the scan scheduler are classes.
Each is proved against a specification, and the theorems are about that specification. Threads are
modelled as atomic steps that may interleave in any order; a run is any sequence of enabled steps.

Several things that the environment decides are parameters, so the theorems hold for every choice:
the class of characters that `\d` stands for, the outcome of each `pread`, the calendar month of an
instant, the clock, the tables of codec, container and HDR aliases, numerals in JSON strings, and
the regular expressions inside conditions.

## What the proofs turned up

These are properties one might expect that the code does not have. For each there is a lemma with an input
that shows it, and one that says exactly when the property does hold.

- The wildcards of a filename pattern stop at a line break, because the compiled `.` does
  (`WildcardStopsAtNewline`). The filenames for which all patterns keep their plain meaning are exactly those
  without one (`PlainMeaningOfAllPatterns`).
- The engine's `\d` accepts every Unicode digit and the number parser only ASCII ones, so a matching
  filename can yield no number (`UnicodeDigitIsLost`, `MatchYieldsNumbers`). The filenames from which every
  pattern that describes them reads its numbers are exactly those without other digits (`NumbersOfAllPatterns`).
- A captured season in other digits silently becomes the default season (`SeasonIsLost`); `SeasonIsCaptured` says
  exactly when the captured one counts.
- A registration on its way out still counts, so a connection can be refused while no guard is held
  (`RefusalWithoutGuards`); `AdmissionIsExact` says when the decision is the one the guards held call for.
- Directories of one library compete for the cooldown within a batch, and the first one wins
  (`SmallBeforeBulk`, `FirstEntryScans`). Whether the library gets a full scan is independent of the drain's
  order exactly when all its directories are bulk imports or none is (`BulkScanDependsOnOrder`).
- Changes that are drained while their library is cooling down are dropped, and nothing queues them again
  (`CoolingDropsChanges`). A batch starts a scan of a library exactly when the earlier scans of it are past the
  cooldown by the time its last directory is looked at (`BatchScansWhenRested`).
- `docs/design/METADATA_OVERLAYS.md` (lines 143 and 678) says that a queue stacks along one axis and that
  the resolved position overrides the declared offset. The code moves overlays on both axes and adds to the
  declared offset (`SecondMovesBothWays`); `MovesOnAxis` says when an overlay moves on an axis, and
  `DeclaredOffsetCounts` that a different declared offset always gives a different position. The model follows
  the code.
- Centred overlays of one queue can overlap (`CenteredCanOverlap`); `CenteredNeighbours` and `CenteredQueue` give
  the exact condition. Overlays aligned to an edge cannot (`EdgeAlignedDisjoint`).
- A device limit of zero means no limit, so declaring one can make a decision more expensive
  (`DeclaringALimitCanHurt`). `BitDepthLimitHurts` and `BitrateLimitHurts` say exactly when; with zero read as
  the loosest limit, accepting more never hurts (`MoreSupportNeverHurts`).
- Looser bounds can give a smaller target resolution (`LooserTargetCanShrink`); `LooserTarget` says exactly when.
- A collection's stored item count includes items marked as missing (`CountCanExceed`); `ItemCountIsRight` says
  exactly when it is the number of items shown.
- An `or` group without rules matches everything (`EmptyOrMatchesAll`); any complete tree is evaluated as if
  such groups were `and` groups (`EvaluatesAsRepaired`), so they only add matches (`EmptyOrOnlyAdds`). An `in` over an empty list matches nothing
  (`InIsOrOfEq`). On an item without the number, an ordering test and its opposite both fail
  (`OrderingHasNoDual`); `OrderingDual` says exactly when they are opposites.
- A timestamp outside the 64-bit nanosecond range adds nothing to a fingerprint (`FarTimesCollide`). Any
  configuration with such a time shares its bytes with a different one (`FarTimeIsAmbiguous`), and a change from
  one such time to another is the only change of an overlay's time that does not show (`TimeChangeShows`).

## Model

| member | source | states |
|---|---|---|
| FilenamePatterns.CompilingPreservesMeaning | server/src/services/media_matching.rs:196-264 | For every pattern the compiler accepts and every filename: the engine accepts the emitted text exactly when no number is named twice, and then it finds a match exactly when the pattern describes the filename (wildcards short of line breaks; all filenames without line breaks: the plain wildcard reading) |
| FilenamePatterns.PatternToRegex | server/src/services/media_matching.rs:224-264 | The character loop emits exactly the anchored texts of the pattern's tokens, and gives up exactly when a brace is unclosed or names no number |
| FilenamePatterns.CompiledText | server/src/services/media_matching.rs:251-263 | The emitted text, parsed by the engine's grammar, is the expression of the tokens: no literal is read as an operator, so the escape set is complete; it compiles exactly when no group name repeats |
| FilenamePatterns.ParseToken | server/src/services/media_matching.rs:234-258 | One token's text in front of any further text parses as that token followed by the parse of the further text |
| FilenamePatterns.AnchoredMeaning | server/src/services/media_matching.rs:225-263 | An unanchored search for the compiled expression succeeds exactly when the whole filename falls into pieces that fit the tokens |
| FilenamePatterns.WildcardStopsAtNewline | server/src/services/media_matching.rs:245-250 | The pattern `*` describes every filename, and its compiled form matches exactly those without a line break |
| FilenamePatterns.PlainMeaningOfAllPatterns | server/src/services/media_matching.rs:224-264 | A filename keeps the plain wildcard reading under every pattern that compiles exactly when it has no line break |
| PatternCaptures.MatchPattern | server/src/services/media_matching.rs:196-222 | Compiling, searching and reading the captured groups gives exactly the season and number of the longest-first cut of the filename, and nothing when the pattern does not compile or no cut exists |
| PatternCaptures.CapturedGroups | server/src/services/media_matching.rs:204-217 | The engine's most preferred match captures exactly the number pieces of the longest-first cut |
| PatternCaptures.GreedyComesFirst | server/src/services/media_matching.rs:204-217 | The longest-first reading is a cut of the filename into fitting pieces, and wherever another cut first differs in length it has the shorter piece |
| PatternCaptures.SearchFindsMatches | server/src/services/media_matching.rs:202-204 | The preference-ordered search succeeds exactly when the expression's language says that it matches |
| PatternCaptures.MatchYieldsNumbers | server/src/services/media_matching.rs:206-221 | A result comes out exactly when no number is named twice, the pattern describes the filename, it asks for an episode or a special, and the deciding piece is in ASCII digits |
| PatternCaptures.AsciiMatchesYieldNumbers | server/src/services/media_matching.rs:206-221 | For any digit class, a filename whose digits are all ASCII yields numbers exactly when a pattern that names no number twice and asks for an episode or a special describes it |
| PatternCaptures.UnicodeDigitIsLost | server/src/services/media_matching.rs:211-213 | For any non-ASCII digit that `\d` accepts, the pattern `{e}` describes the one-digit name and yields nothing |
| PatternCaptures.NumbersOfAllPatterns | server/src/services/media_matching.rs:196-221 | Every pattern that describes a filename and asks for a number yields one exactly when all digits of the filename are ASCII |
| PatternCaptures.SeasonIsCaptured | server/src/services/media_matching.rs:206-213 | The season of an episode is the captured number when its piece is in ASCII digits, and the default season in all other cases |
| PatternCaptures.SeasonIsLost | server/src/services/media_matching.rs:206-213 | A name whose season is a non-ASCII digit is read as an episode of the default season |
| PatternCaptures.SpelledTokens | server/src/services/media_matching.rs:224-261 | Every list of tokens whose literals can be written is the reading of some pattern |
| PatternCaptures.MatchBounds | server/src/services/media_matching.rs:206-219 | Numbers are at most 999; with an episode token the season is the default or captured and at most 99; without one it is zero |
| PatternCaptures.NumbersReadBack | server/src/services/media_matching.rs:206-217 | The number parser gives back every number in range from its decimal notation, with any leading zeros, and refuses those out of range |
| PatternCaptures.NumberIsCaptured | server/src/services/media_matching.rs:211-219 | Whatever the match, its number is exactly the value of the deciding piece of the longest-first cut |
| PatternCaptures.EpisodeReadsBack | server/src/services/media_matching.rs:196-221 | `{s}x{e}` on the decimal notations of season and episode, with any leading zeros that fit, yields exactly the two |
| PatternCaptures.SpecialReadsBack | server/src/services/media_matching.rs:216-219 | `{sp}` on the decimal notation of a number yields it in season zero |
| PatternCaptures.ShortSpellings | server/src/services/media_matching.rs:230-247 | The written patterns `{s}x{e}` and `{sp}` read as those token lists |
| FilenamePatterns.BraceMeaning | server/src/services/media_matching.rs:230-247 | Which seven names between braces, trimmed, ask for which number, and that all others are refused |
| FilenamePatterns.EscapedLiterals | server/src/services/media_matching.rs:253-258 | Which of the literal characters are written with a backslash, one by one |
| Text.TrimPadded | server/src/services/media_matching.rs:233-233 | Trimming removes the white space around a text and nothing else |
| Text.LowerMeans | server/src/services/conditions.rs:475-477 | Comparing in ASCII lower case is comparing up to the case of ASCII letters |
| PolicyLoader.SingleByteCorruptionDetected | native/ffmpeg-bootstrap/bootstrap.c:106-118 | An accepted policy file of any size with any one byte changed, header, checksum field or instructions, is refused |
| PolicyLoader.ChecksumFieldCorruption | native/ffmpeg-bootstrap/bootstrap.c:113-118 | Any change confined to the checksum's field is refused, since the field does not enter the checksum |
| PolicyLoader.ChecksumSeesOneByte | native/ffmpeg-bootstrap/bootstrap.c:69-74 | Changing one byte of a hashed run changes the hash, from every starting value |
| PolicyLoader.ChecksumInjectiveInHash | native/ffmpeg-bootstrap/bootstrap.c:69-74 | Over a fixed run of bytes different starting hashes end in different hashes |
| PolicyLoader.MixInjective | native/ffmpeg-bootstrap/bootstrap.c:70-72 | If two FNV-1a steps agree, the hashes before are equal exactly when the bytes are |
| PolicyLoader.MixSurjective | native/ffmpeg-bootstrap/bootstrap.c:70-72 | Every 64-bit value is the outcome of a step with any given byte |
| PolicyLoader.Read64Injective | native/ffmpeg-bootstrap/bootstrap.c:36-43 | Little-endian decoding of eight bytes loses nothing |
| PolicyLoader.ReadExact | native/ffmpeg-bootstrap/bootstrap.c:58-67 | The loop over partial and interrupted reads succeeds exactly when the file reaches far enough and the calls deliver with at most eight interruptions; then the buffer holds the file's bytes, and the rest of it is unchanged |
| PolicyLoader.ParseDescriptor | native/ffmpeg-bootstrap/bootstrap.c:45-56 | A descriptor is accepted exactly when it is one to nine digits of value 3 to 100000000, and then it is that value |
| PolicyLoader.ComputeChecksum | native/ffmpeg-bootstrap/bootstrap.c:69-74 | The byte loop computes the fold of the FNV-1a step over the buffer |
| PolicyLoader.LoadPolicy | native/ffmpeg-bootstrap/bootstrap.c:106-118 | The file is loaded exactly when every header field and the checksum are right and both reads deliver; what comes back is the file's identity part of the header |
| PolicyLoader.Acknowledge | native/ffmpeg-bootstrap/bootstrap.c:76-88 | The write loop succeeds exactly when one of eight writes transfers the whole reply and those before it were interrupted; a short write fails |
| PolicyLoader.InstallPolicy | native/ffmpeg-bootstrap/bootstrap.c:90-124 | The launcher gets the whole acknowledgment exactly when the launch is sound, the policy is acceptable and the reads and the write deliver, and it echoes the policy's identity and architecture; the process goes on exactly when the last close succeeds as well, and otherwise fails closed |
| PolicyWire.EncodedIsAccepted | server/src/services/sandbox/wire.rs:38-58 | The launcher encodes exactly the filters of 1 to 4096 instructions, and the loader accepts every encoded file |
| PolicyWire.BodyInjective | server/src/services/sandbox/wire.rs:43-47 | Different filters are encoded to different instruction bytes |
| PolicyWire.ReplyIsRecognized | server/src/services/sandbox/wire.rs:60-79 | The launcher recognizes the loader's reply to its own policy exactly when nonce and architecture are those it encoded and the status byte is a known one |
| PolicyWire.AcceptedIsEncoded | native/ffmpeg-bootstrap/bootstrap.c:106-118 | The loader accepts exactly the files that the launcher encodes for its architecture, so magic, version, architecture, count, reserved word, size and checksum are all decided |
| PolicyWire.OneArchitecture | native/ffmpeg-bootstrap/bootstrap.c:107-109 | A file accepted for one architecture is accepted for no other |
| PolicyWire.HeaderOf | server/src/services/sandbox/wire.rs:48-56 | The encoded bytes of magic, version and reserved word, the sizes, and the checksum's starting value |
| PolicyLoader.EightInterruptions | native/ffmpeg-bootstrap/bootstrap.c:58-67 | A read survives n interruptions exactly when n is at most eight, however little each call delivers |
| PolicyLoader.EightAttempts | native/ffmpeg-bootstrap/bootstrap.c:76-88 | A reply survives n interruptions exactly when n is at most seven and it then goes out as 24 bytes at once |
| Retention.CleanupsCompose | server/src/services/backup.rs:366-416 | Cleaning up at one time and again at any later time leaves exactly the listing that the later cleanup alone leaves; with equal times this is idempotence |
| Retention.CleanupPgDumps | server/src/services/backup.rs:339-419 | The pass with flags and the per-month map leaves exactly the surviving files in listing order; deleted, retained and unknown add up to the number of files, and unknown counts the undated ones |
| Retention.RecentSurvives | server/src/services/backup.rs:366-386 | A dump dated within `daily` times 86400 seconds always survives |
| Retention.OldIsRemoved | server/src/services/backup.rs:366-391 | A dump dated before that and before `monthly` times 31 times 86400 seconds never survives |
| Retention.OnePerMonthBetween | server/src/services/backup.rs:388-406 | Of the dumps of a month between the two bounds exactly one survives, and none is newer |
| Retention.LeftAreSurvivors | server/src/services/backup.rs:410-415 | The files left are exactly the surviving ones |
| Retention.OneOfEachMonthSurvives | server/src/services/backup.rs:383-406 | Each month with dumps in the monthly window keeps exactly one of them, and no other of the month is newer |
| Retention.ListingOrderIrrelevant | server/src/services/backup.rs:366-406 | Which instants are kept does not depend on the order of the listing |
| Retention.SurvivesEarlier | server/src/services/backup.rs:366-406 | A file that a cleanup keeps is kept by every cleanup whose windows begin no later, also under another configuration |
| Retention.RemovedBeforehand | server/src/services/backup.rs:366-416 | Removing beforehand any files that a cleanup would remove does not change what it leaves |
| Retention.CleanupsComposeAcross | server/src/services/backup.rs:366-416 | Composition also holds between two configurations, as long as neither window of the second cleanup begins earlier |
| Retention.CleanupsComposeAround | server/src/services/backup.rs:366-416 | The same when files were added between the cleanups and are listed anywhere |
| Retention.CleanupsComposeWithNewDumps | server/src/services/backup.rs:366-416 | A cleanup, then new dumps, then a later cleanup leaves what the later cleanup leaves of all the files together |
| DumpNames.DumpNameRoundTrip | server/src/services/backup.rs:421-431 | Reading a generated name gives back its instant, for every four-digit year and every label, also one with underscores and one of which nothing is left |
| DumpNames.LabelIsKept | server/src/services/backup.rs:605-619 | The label is the first 64 ASCII letters, digits, hyphens and underscores of the text, in their order and in lower case, and nothing else |
| DumpNames.NameShowsLabel | server/src/services/backup.rs:594-603 | The sanitized label, or `manual`, stands in the name between the fixed beginning and the timestamp |
| DumpNames.NamesDiffer | server/src/services/backup.rs:594-619 | Generated names agree only if label and instant do |
| DumpNames.CalendarMeans | server/src/services/backup.rs:428-430 | The lengths of the months, with the Gregorian leap years |
| DumpNames.StampRead | server/src/services/backup.rs:594-603 | The timestamp parser undoes the timestamp format |
| EventRing.UserChannel.Publish | server/src/services/event_bus.rs:190-210 | A publication extends the history, and the ring stays its last hundred events |
| EventRing.UserChannel.ReplayAfter | server/src/services/event_bus.rs:236-253 | For the event at position k of the history, the events from k + 1 on as far as the ring reaches back, in order; for an id never published, the whole ring |
| EventRing.ReplayClosesTheGap | server/src/services/event_bus.rs:225-253 | After a replay a client misses nothing exactly when at most a hundred events followed its last one; otherwise it misses exactly the oldest of them |
| EventRing.HundredIsEnough | server/src/services/event_bus.rs:236-253 | A replay over a gap of at most a hundred events has all of them, and over one more it lacks the oldest |
| ConnectionLimit.LimitIsSafe | server/src/services/event_bus.rs:262-292 | In every interleaving of registrations and drops the 32-bit counter is the guards held plus the registrations undecided, and the guards never exceed the limit |
| ConnectionLimit.RemoveKeepsInvariant | server/src/services/event_bus.rs:129-138 | Taking one back, on refusal or drop, never underflows the counter and keeps the invariant |
| ConnectionLimit.StepKeepsInvariant | server/src/services/event_bus.rs:262-292 | Every atomic step keeps the invariant behind the limit |
| ConnectionLimit.AdmissionIsExact | server/src/services/event_bus.rs:262-292 | In every run, admission agrees with the guards held exactly when they fill the limit anyway or there is room for the undecided registrations too |
| ConnectionLimit.QuietAdmissionIsExact | server/src/services/event_bus.rs:262-292 | With no other registration undecided, one is admitted exactly when fewer guards than the limit are held |
| ConnectionLimit.RefusalWithoutGuards | server/src/services/event_bus.rs:268-281 | There is a run in which a registration is refused while no guard is held |
| ConnectionLimit.StepsChangeOne | server/src/services/event_bus.rs:129-292 | Each step moves exactly its own registration between undecided, holding and gone |
| ChannelTable.CallKeepsUser | server/src/services/event_bus.rs:325-337 | A call keeps the user it was made for through every run |
| ChannelTable.CallersAgree | server/src/services/event_bus.rs:325-337 | In every interleaving of calls, two finished calls have the same channel exactly when they were for the same user |
| ChannelTable.ChannelIsStable | server/src/services/event_bus.rs:325-337 | A user's channel in the table is never replaced |
| WatchHandOff.NoLostWakeup | server/src/services/fs_watcher.rs:246-301 | In every reachable state pending directories imply a queued wake-up, a callback about to post one, or a processor about to drain, although posting fails on a full queue |
| WatchHandOff.ChangesAreConserved | server/src/services/fs_watcher.rs:246-347 | Every recorded change has been drained exactly once or is still pending |
| WatchHandOff.NothingIsForgotten | server/src/services/fs_watcher.rs:246-253 | In every run what counts as recorded is exactly what the callbacks recorded |
| WatchHandOff.CallbacksNeverWait | server/src/services/fs_watcher.rs:246-255 | A callback can always record and post, and a wake-up is lost exactly when 256 are queued |
| WatchHandOff.EverythingIsDrained | server/src/services/fs_watcher.rs:267-347 | When nothing more is recorded, every schedule comes to rest within a bounded number of steps, and at rest everything recorded has been drained |
| WatchHandOff.StepKeepsInvariant | server/src/services/fs_watcher.rs:246-301 | Every step of the callback and of the processor keeps the hand-off's invariant |
| WatchHandOff.RecordDirs | server/src/services/fs_watcher.rs:246-253 | The callback's loop raises each directory's count by its number of changed files |
| ScanCooldown.ScanScheduler.ProcessBatch | server/src/services/fs_watcher.rs:349-401 | Each entry starts a scan exactly when its library is watched and none of its scans started in the last ten seconds, earlier entries of the batch included; a scan is full exactly from ten changed files on |
| ScanCooldown.OutcomeMeans | server/src/services/fs_watcher.rs:357-396 | An entry starts a scan exactly when its library is watched and none of its scans is less than ten seconds old, a full one exactly from ten changes on |
| ScanCooldown.NoteScan | server/src/services/fs_watcher.rs:366-401 | Noting a scan that passed the check keeps the map equal to the latest starts, and all scans of a library ten seconds apart |
| ScanCooldown.FirstEntryScans | server/src/services/fs_watcher.rs:357-396 | In a batch shorter than the cooldown with its library rested before it, an entry starts its scan exactly when it is the first of its library, a full one exactly from ten changed files on |
| ScanCooldown.BulkScanDependsOnOrder | server/src/services/fs_watcher.rs:357-396 | Over all orders of such a batch, whether the library gets a full scan is always the same exactly when its entries are all bulk imports or none is |
| ScanCooldown.SmallBeforeBulk | server/src/services/fs_watcher.rs:357-396 | A batch of one small and one bulk directory for which the order decides |
| ScanCooldown.BatchScansWhenRested | server/src/services/fs_watcher.rs:357-396 | For any batch, history and clock, a library with an entry in the batch gets a scan exactly when its earlier scans are past the cooldown at the check of its last entry |
| ScanCooldown.CoolingDropsChanges | server/src/services/fs_watcher.rs:366-378 | Any number of changes five seconds after a scan of their library start nothing |
| Dilation.DilationsCompose | server/src/services/overlays.rs:642-670 | For all masks and radii, dilating by a and then by b is pointwise at most dilating by a + b |
| Dilation.DilateMask | server/src/services/overlays.rs:642-670 | The four loops give every pixel the largest alpha within the Euclidean disc clipped to the image, in white, and leave the others transparent |
| Dilation.DiscsAdd | server/src/services/overlays.rs:650-661 | Offsets in discs of radius a and b add up to an offset in the disc of radius a + b |
| Dilation.DilationExtends | server/src/services/overlays.rs:642-670 | A mask is pointwise at most its dilation |
| Dilation.DilationMonotone | server/src/services/overlays.rs:642-670 | A larger mask or radius gives a pointwise larger dilation |
| QueueStacking.ResolveQueuePositions | server/src/services/overlays.rs:958-985 | In place and whatever order the queues are met in, every overlay of a queue moves past the sizes and spacings of those ahead of it by weight, ties in listing order; all others stay |
| QueueStacking.AheadMeans | server/src/services/overlays.rs:959-970 | Ahead of an overlay stand the heavier members of its named queue and the equally heavy ones listed before it |
| QueueStacking.HeightMeans | server/src/services/overlays.rs:987-993 | The estimated height by type, for text the font size times 1.3 cut to a whole number |
| QueueStacking.WidthMeans | server/src/services/overlays.rs:995-1004 | The estimated width by type, for text half the cut font size for every byte |
| QueueStacking.PositionMeans | server/src/services/overlays.rs:804-826 | The offset is the distance from the edge that an overlay is aligned to; centred, it shifts from the middle |
| QueueStacking.SpansDisjoint | server/src/services/overlays.rs:958-1004 | Two overlays of a queue with equal starting offsets get disjoint spans on either axis |
| QueueStacking.NeighboursAdjoin | server/src/services/overlays.rs:968-984 | Neighbours in a queue are apart by exactly the first one's estimated size and the spacing |
| QueueStacking.SortInOrder | server/src/services/overlays.rs:969-970 | The sort puts a queue in falling weight, equal weights in listing order |
| QueueStacking.EdgeAlignedDisjoint | server/src/services/overlays.rs:804-826 | Drawn from a canvas edge at the estimated sizes, two overlays of a queue with equal starting offsets do not overlap on the axis |
| QueueStacking.CenteredNeighbours | server/src/services/overlays.rs:804-826 | Centred neighbours with equal starting offsets are disjoint on an axis exactly when half the second's size is at most half the first's plus the spacing |
| QueueStacking.CenteredQueue | server/src/services/overlays.rs:804-826 | A whole centred queue is pairwise disjoint exactly when all its neighbours are |
| QueueStacking.CenteredCanOverlap | server/src/services/overlays.rs:804-826 | Two centred images of ten and a hundred pixels overlap at the usual spacing |
| QueueStacking.MovesOnAxis | server/src/services/overlays.rs:958-985 | An overlay moves on an axis exactly when something of a size or any spacing stands ahead of it, on either axis |
| QueueStacking.DeclaredOffsetCounts | server/src/services/overlays.rs:981-982 | Two declared offsets give the same position exactly when they are equal, so none is overridden |
| QueueStacking.SecondMovesBothWays | server/src/services/overlays.rs:971-983 | The second of two images moves by width and spacing to the right and by height and spacing down |
| PlaybackDecision.EvaluateVideo | server/src/services/decision_engine.rs:220-358 | The sequence of overriding checks ends in the join of the eight independent verdicts, which is also the strongest of the reasons it logged |
| PlaybackDecision.EvaluateDynamicRange | server/src/services/decision_engine.rs:360-427 | The dynamic range check returns its verdict and logs reasons whose strongest is that verdict |
| PlaybackDecision.EstimateDecides | server/src/services/decision_engine.rs:281-300 | With nothing else against direct play, the decision is a transcode exactly when the mode heeds an estimate and the total bitrate exceeds the estimate times the safety factor |
| PlaybackDecision.DecisionMeans | server/src/services/decision_engine.rs:220-358 | All four decisions, each exactly, in terms of stream, device, network and settings |
| PlaybackDecision.PlainRangeMeans | server/src/services/decision_engine.rs:405-426 | Streams without Dolby Vision by the trimmed, lower-cased name of their range |
| PlaybackDecision.DolbyVisionMeans | server/src/services/decision_engine.rs:366-403 | Streams with Dolby Vision: direct, remuxed by a usable base layer, or tone-mapped |
| PlaybackDecision.ImpliedBaseMeans | server/src/services/decision_engine.rs:664-688 | Which base layer a stream without a declared one has |
| PlaybackDecision.SplitMeans | server/src/services/decision_engine/compatibility.rs:76-88 | The parts of a container's name have no commas and joined by commas are the name |
| PlaybackDecision.MoreSupportNeverHurts | server/src/services/decision_engine.rs:220-427 | More throughput, or a device that accepts more in any respect (codecs, containers, HDR formats, resolution, bitrate, bit depth, Dolby Vision, fallback), never makes the decision more expensive, for every alias table and configuration |
| PlaybackDecision.BitDepthLimitHurts | server/src/services/decision_engine.rs:220-358 | A new bit depth limit makes the decision more expensive exactly when it is not zero, is below the stream's depth, and the stream was not transcoded; the decision is then a transcode |
| PlaybackDecision.BitrateLimitHurts | server/src/services/decision_engine.rs:220-358 | The same for the device's bitrate limit |
| PlaybackDecision.DeclaringALimitCanHurt | server/src/services/decision_engine.rs:220-358 | For any alias table and any known codec and container, a device that supports them plays a ten-bit stream directly while it declares no bit depth, and is sent a transcode once it declares one below ten |
| PlaybackDecision.TargetsFit | server/src/services/decision_engine.rs:590-621 | A transcode's target is within source, device, bitrate and manual bounds, even on both sides and a fixed point of normalizing; it is empty exactly when source, device or manual cap leaves less than two pixels |
| PlaybackDecision.CappedIsGreatest | server/src/services/decision_engine.rs:590-621 | The bounds of a target leave exactly what source, device, throughput and manual cap leave, with the throughput's thresholds |
| PlaybackDecision.NormalizedFits | server/src/services/decision_engine.rs:733-738 | Normalizing never enlarges, gives even sides, is idempotent, and empties exactly what is below two pixels |
| PlaybackDecision.LooserBounds | server/src/services/decision_engine.rs:733-738 | Looser bounds normalize to a resolution at least as large exactly when both or neither reach the ladder or the rung covers what was left before |
| PlaybackDecision.LooserTarget | server/src/services/decision_engine.rs:590-621 | A device that accepts more, or more throughput, loosens the bounds, and the target is at least as large exactly under that condition |
| PlaybackDecision.LooserTargetCanShrink | server/src/services/decision_engine.rs:590-621 | One more column of the device's maximum turns a target of 852x2000 into one of 854x480 |
| Collections.GroupedResults | server/src/services/collections.rs:603-655 | One pass with an index of keys is the plain group-by: distinct admitted keys by first appearance, each with its first rows up to the limit, less the groups that are too small |
| Collections.FirstSeenIsRight | server/src/services/collections.rs:609-640 | The distinct values of a sequence: none repeated, lost or added, in the order of first appearance |
| Collections.KeyAdmission | server/src/services/collections.rs:612-619 | A row is grouped under its trimmed key exactly when that is not empty, not excluded, and included if any key is |
| Collections.CaseDoesNotMatter | server/src/services/collections.rs:993-997 | Keys that differ only in ASCII case are admitted alike |
| Collections.DedupeItems | server/src/services/collections.rs:857-863 | The first item of each id stays, in order, and ranks run from one |
| Collections.PersistItems | server/src/services/collections.rs:715-808 | Shown afterwards are exactly the wanted items in sync mode, and otherwise those shown before as well; added and removed are the differences, and size before plus added less removed is size after, also with rows marked as missing |
| Collections.ShownAfter | server/src/services/collections.rs:721-769 | Removal and upsert leave exactly the wanted set shown, or in the additive mode the union |
| Collections.WantedRow | server/src/services/collections.rs:755-769 | A wanted item is shown at a thousand times its rank |
| Collections.OtherRow | server/src/services/collections.rs:731-769 | The row of an item not wanted is gone in sync mode and untouched otherwise |
| Collections.ItemCountIsRight | server/src/services/collections.rs:770-839 | The stored count is the number of items shown exactly in sync mode or when every item that was missing is wanted again |
| Collections.CountCanExceed | server/src/services/collections.rs:770-839 | A collection with one row counted and none shown |
| Conditions.DualConditionsNegate | server/src/services/conditions.rs:108-234 | Swapping `and` with `or`, `eq` with `neq` and the existence flag negates every nested condition of non-empty groups over such leaves, in every context |
| Conditions.DualNegates | server/src/services/conditions.rs:158-366 | The same law for every node of the tree |
| Conditions.InIsOrOfEq | server/src/services/conditions.rs:201-234 | A membership test equals the `or` of its equality tests exactly when the list is not empty |
| Conditions.ValidationIsExact | server/src/services/conditions.rs:127-156 | Validation passes exactly null, constants, the empty object and complete trees |
| Conditions.ValidatedMeansWhatItSays | server/src/services/conditions.rs:158-234 | A complete tree without empty `or` groups evaluates to its usual reading |
| Conditions.EvaluatesAsRepaired | server/src/services/conditions.rs:158-234 | Every complete tree evaluates to the usual reading of the tree whose empty `or` groups are turned into empty `and` groups |
| Conditions.EmptyOrOnlyAdds | server/src/services/conditions.rs:158-234 | A complete tree matches whatever it matches by its usual reading |
| Conditions.EmptyOrMatchesAll | server/src/services/conditions.rs:158-187 | An `or` group without rules passes validation and matches every item |
| Conditions.OrderingDual | server/src/services/conditions.rs:305-342 | For every field and operand, an ordering test and its opposite negate each other exactly when item and operand both have the number; otherwise both fail |
| Conditions.RatingOrderMeans | server/src/services/conditions.rs:305-342 | gt, gte, lt and lte on the rating hold exactly when it is >, >=, <, <= the operand |
| Conditions.ChannelOrderMeans | server/src/services/conditions.rs:305-342 | The same on the number of channels |
| Conditions.TextEqMeans | server/src/services/conditions.rs:240-303 | Equality on a text column holds exactly for texts equal up to ASCII case |
| Conditions.ListEqMeans | server/src/services/conditions.rs:240-303 | Equality on genres and streaming services asks for an entry equal up to ASCII case |
| Conditions.OtherEqMeans | server/src/services/conditions.rs:240-303 | Equality on identifiers, flags and channels |
| Conditions.RatingEqMeans | server/src/services/conditions.rs:240-303 | Equality on ratings holds exactly below a difference of 2^-52 |
| Conditions.LeafDispatch | server/src/services/conditions.rs:201-234 | What neq, exists and matches ask for, and that unknown operators fail |
| Conditions.LenientEvaluation | server/src/services/conditions.rs:108-199 | How trees that would not pass validation are evaluated |
| Conditions.FirstError | server/src/services/conditions.rs:404-428 | The error of a list of rules is that of the first rule that has one |
| Conditions.ErrorsMean | server/src/services/conditions.rs:404-473 | Which error a single incomplete leaf or group has |
| Conditions.OrderingHasNoDual | server/src/services/conditions.rs:305-342 | On an item without a channel count every ordering test on it and its opposite fail, for any operand |
| ConfigFingerprint.BytesIdentifyConfiguration | server/src/services/clean_art.rs:236-249 | With representable times, equal fed bytes imply equal source artwork and equal overlays with equal times |
| ConfigFingerprint.OrderDoesNotShow | server/src/services/clean_art.rs:237-246 | For distinct ids the fed bytes are the same for every permutation of the overlays |
| ConfigFingerprint.FeedHasher | server/src/services/clean_art.rs:236-249 | The sort and the loop feed exactly the source id and then id and time of each overlay by id |
| ConfigFingerprint.AscendingDetermined | server/src/services/clean_art.rs:237-238 | Inputs have only one ascending arrangement |
| ConfigFingerprint.TimeChangeShows | server/src/services/clean_art.rs:236-249 | Among any other overlays, changing one overlay's time leaves the fed bytes equal exactly when the time is the same or neither the old nor the new one fits 64-bit nanoseconds |
| ConfigFingerprint.SignedBytesValue | server/src/services/clean_art.rs:243-245 | The eight bytes of a time stand for its two's complement, most significant first |
| ConfigFingerprint.NanosMean | server/src/services/clean_art.rs:243-243 | A time enters exactly when it fits a signed 64-bit number |
| ConfigFingerprint.FarTimeIsAmbiguous | server/src/services/clean_art.rs:236-249 | Every configuration with a time outside the 64-bit nanosecond range shares its bytes with a different one over the same ids |
| ConfigFingerprint.FarTimesCollide | server/src/services/clean_art.rs:240-246 | Three overlays without a representable time feed the same bytes as two with one |

## Left out

- Filename matching: `cascade_media_match`, `parse_episode_ref`, `resolve_episode_override`, provider-id tags and the reading of `.media-match` lines are field-by-field choices and are not modelled; the third part of `match_pattern`'s result is always absent and is omitted.
- The regex engine's limit on the size of a compiled expression is not modelled: a pattern that is only too large compiles here.
- Regular expressions outside the emitted subset (alternation, character classes, lazy repetition) are refused by the parser here.
- `PolicyLoader.InstallPolicy`: `fstat`, `fcntl`, seals, `prctl`, the seccomp call and the `close` calls come in as flags of the launch; what a short write leaves in the pipe is not modelled.
- The sixteen status bytes in front of the acknowledgment are written by the filesystem sandbox, of which only their form is modelled.
- Retention: the calendar month is any function of the instant; failures to remove a file, directory reading and the filter on file names are left out.
- Dump names: offsets and formats other than the generated one are not modelled.
- Event bus: delivery to live subscribers, metrics and the type filter are left out; event ids are numbers, and distinctness is a stated condition.
- `ConnectionLimit.LimitIsSafe`: fewer than 2^32 registrations are alive at once.
- Watcher: shutdown, debouncing, the filter on media files, the mapping from paths to libraries and the scan itself are left out.
- Overlays: groups and suppress rules are single filters over a list and are left out, as are glyphs, SVG, resizing, blending and encoding.
- `QueueStacking.ResolveQueuePositions`: 32-bit overflow on sizes and offsets is not modelled, and sizes are estimates, not the rendered ones.
- `Dilation.DilateMask`: 32-bit overflow of the squared offsets is not modelled.
- `PlaybackDecision.EvaluateVideo`: the factor names and texts of the reasons are left out, and the throughput factor is a real number without rounding; audio, subtitles, target codec and target bitrate are table lookups and are left out.
- Collections: SQL, TMDB matching, `select_candidate`, titles and durations are left out; a table is a map from item to its row.
- Conditions: numbers are reals; JSON integers beyond 64 bits, rounding, and numerals that read as infinite or as not a number are not modelled.
- Fingerprint: the hash function and the encoding of its output are left out.
