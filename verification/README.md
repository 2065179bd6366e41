# Timelite batch engine: a verified model

Timelite is an embedded time-series store over two files, a database and a
write-ahead log (WAL). This project models its version 2 batch engine down to
the bytes, as Dafny, and proves what the engine promises: that no crash, failed
operation or interrupted recovery loses or invents a committed batch, that the
persistent skip-link index finds what it should, that queries agree with a plain
scan, and that the offline inspector predicts what open will do.

`dafny verify dfyconfig.toml` checks everything.

## How the model is built

- **Bytes.** `Bytes`, `Checksum`, `Frames`, `Segments` and `Manifests` are the
  on-disk structures with their encoders, decoders and the CRC-32 of section
  8.1.1.6.2 of ITU-T V.42 (sample code in section 8 of RFC 1952). `Layout` states the
  format a second time, by byte positions and numbers, and proves that the readers accept
  exactly that; `Polynomial` does the same for the checksum, as long division. Integers are
  unbounded; 64-bit wrap-around of sequence numbers and 32-bit narrowing are written out.
- **Storage.** A file is its last synced contents and the operations issued since.
  A crash keeps a prefix of those operations, the last write possibly cut to a
  byte prefix. An operation that fails may have taken effect in part, and a failed
  sync leaves its file's operations unsynced. Provisioning a file counts as a sync.
- **Meaning.** A `Store` is the logical content of a pair: installed segments, the
  high-water marks that outlive expired data, the batches of the WAL, the metadata
  revision. `Recovery.Recover` is open's decision as a function of two images, and
  `Acceptance` says of the bytes alone when it is positive.
- **Protocol.** `Scripts` lists the file operations of each call. `Authority`,
  `CrashSafety` and `Calls` prove every prefix of every script safe. `Runs` is the
  state machine over calls, failures, crashes, closes and opens, and holds the
  theorems about whole runs. `Effects` says what each acknowledged call leaves in the
  files, `Pairs` that the headers stay, `Damage` what open refuses afterwards.
- **Engine.** `Engine.Batches` is the handle as a class over files that may fail at
  any operation. Every method is proved to be a step of that state machine, so the
  theorems about runs apply to it. The loops it uses (chain validation, relocation,
  recovery scan, seek, range reads, cursor relocation) are methods proved against
  the specification functions.
- **Inspector.** `Inspection` re-implements open's decision independently, as the
  tool does, and the exact extent of its agreement with open is proved.

A torn manifest slot is rejected by its checksum only with high probability. The
model names that assumption once, as `Manifests.TearDetected`: a slot whose rewrite
stopped part-way does not carry a matching checksum unless it equals the old or the
new contents. `LateTearDetected` and `NarrowTearDetected` are the part of it that is
a fact. Appends do not need it. Where code and documentation differ the code is
followed: docs/feature/006-checkpoint.md:221 says an interrupted upgrade of a 32-byte
database repeats, the code repeats it only at exactly 32 bytes, and `Upgrade` shows what
follows from that.

## Main results

- `Runs.RunSafe` with `NeverStuck`, `NoLoss`, `NoInvention`, `NoResurrection` and
  `UsableReads`: over every run, an open shows one of the stores tracked before it;
  acknowledged batches stay until a retention removes them and then stay gone; whatever
  else is shown comes from distinct append events, in their order; every crash image
  opens, except 1..31 bytes of a torn frame header.
- `Runs.RetentionConverges`, `CrashSafety.FinishSafely`, `Authority.HandOver`:
  retention authority, convergence and the revision budget.
- `Engine.Batches`: each call of the imperative engine is a step of that system, and
  the read cursor's future changes exactly as promised.
- `Acceptance.OpensExactly` with `Layout.FrameExact`, `HeaderExact` and `SlotExact`: the
  images open accepts, exactly and without reference to its code. `Damage`: after a checkpoint
  a damaged newest manifest is refused instead of showing the older batches, and so is
  any damaged byte of a WAL frame or segment header.
- `Effects`: every acknowledged call byte by byte; a checkpoint moves the frames verbatim.
- `Pairs.PairKept`: the identity of the pair survives every run.
- `Identity.PairDetermines`, `Identity.OpeningReflects` and the lemmas of
  `Maintenance`: reopening is the identity on the handle.
- `Queries.Seek`, `Ranges.NextRange`, `Ranges.AggregateRange`: fast queries refine
  plain scans, unordered old data included; `Ranges.MatchingFiltered` and
  `AggregateMeans` say what those scans return in terms of the records.
- `Inspection.PredictsOpen` and `PredictsProtocol`: the predictor agrees with open on every
  database the protocol can leave, and on other images exactly under a stated condition;
  `OverflowImage` and `UndatedImage` are images on which it does not.
- `ChainCheck.CheckedIndexed`: on any accepted image the index leads to the walked headers.
- `Upgrade.LegacyCheckpoint`: a property that does not hold of the code, with a
  concrete counterexample and the exact condition under which it does.

## Model

| member | source | states |
|---|---|---|
| `Checksum.Compute` | timelite.c:230-244 | the two nested loops compute, over the whole range, the function that `Polynomial.CrcIsRemainder` identifies |
| `Polynomial.CrcIsRemainder` | timelite.c:230-244 | that function is the inverted, bit-reversed remainder of long division of the message, its first 32 bits inverted and 32 zero bits appended, by x^32 + x^26 + x^23 + x^22 + x^16 + x^12 + x^11 + x^10 + x^8 + x^7 + x^5 + x^4 + x^2 + x + 1 |
| `Polynomial.PolynomialIsGenerator` | timelite.c:240 | the constant 0xedb88320 holds the coefficients of that generator, bit-reversed |
| `Checksum.BitStepInjective` | timelite.c:240 | one bit step maps different registers to different registers |
| `Checksum.BurstDetected` | timelite.c:230-244 | any change confined to at most four consecutive bytes of a checksummed range changes the checksum |
| `Frames.RecordRoundTrip` | timelite.c:1901-1908 | decoding an encoded record gives it back, for every series, time and signed 64-bit value |
| `Layout.RecordAt` | timelite.c:1449-1455 | series, time and value of record i lie at bytes 32, 36 and 44 of its frame plus 20 i, the value in two's complement |
| `Layout.FrameAt` | timelite.c:1443-1462 | the magics, sequence, count, lengths and three checksums of a frame by byte positions |
| `Layout.LiteralFrame` | timelite.c:189-205 | one whole frame, word by word: byte order, magics and field order as literals |
| `Layout.FrameExact` | timelite.c:653-709 | the frame reader accepts exactly the bytes append writes, at any place, and returns their records |
| `Frames.FrameRoundTrip` | timelite.c:664-709 | a frame written by append, anywhere in a file and whatever follows, is read back complete, with its records |
| `Frames.TornFrame` | timelite.c:664-692 | every strict prefix of a frame of at least 32 bytes reads as END, every shorter nonempty one as damage |
| `Frames.DamageDetected` | timelite.c:664-709 | changing any one byte of a committed frame makes the read fail: never END, never other records |
| `Frames.ReadFrame` | timelite.c:664-709 | a complete result is the exact bytes at the offset, of the length its count declares, within the bound |
| `Segments.SegmentRoundTrip` | timelite.c:493-564 | a written segment header is accepted and decodes to the fields it was built from |
| `Layout.HeaderAt` | timelite.c:621-635 | the three kinds of segment header by byte positions |
| `Layout.HeaderExact` | timelite.c:493-564 | the header reader accepts exactly the encodings of sound fields: 84 to 1344 bytes per frame, a body within the WAL capacity, links that point backwards |
| `Segments.ReadChain` | timelite.c:493-564 | reading the i-th header of a chain gives that segment, linked to its predecessor and to ordinal n - lowbit(n) |
| `Segments.ReadSegment` | timelite.c:493-564 | an accepted header describes a nonempty segment that fits before the end |
| `SkipLinks.TableStep` | timelite.c:841-870 | moving on by one ordinal, exactly the entries up to the low bit change, and the low-bit entry named n - lowbit(n) |
| `SkipLinks.SegmentAt` | timelite.c:572-619 | on any chain of headers in place finds the n-th one for every target in range, through links or by the 32-byte-header fallback, and reads exactly the counted headers when all have links |
| `SkipLinks.LookupIn` | timelite.c:572-619 | in an installed chain that is the true n-th segment |
| `SkipLinks.LookupBound` | docs/feature/007-time-range.md:115-117 | below ordinal 2^K a lookup reads at most K(K+1)/2 headers |
| `ChainCheck.TableKept` | timelite.c:841-870 | the table invariant "entry j is the last segment at a multiple of 2^j" is kept, and its low-bit entry is the skip link |
| `ChainCheck.SpanStartIsLeast` | timelite.c:853-866 | the span start of the header walk is the least ordinal from which the chain is ordered in time |
| `ChainCheck.FindBit` | timelite.c:841-844 | the search loop finds the exponent of the lowest set bit |
| `ChainCheck.RecordOffset` | timelite.c:867-870 | the table after the loop: entries 0..bit name the offset, the others are unchanged |
| `ChainCheck.CheckSegments` | timelite.c:814-912 | the loop with its 24-entry table decides exactly as the recursive walk |
| `ChainCheck.ChainAccepted` | timelite.c:814-912 | every chain that a manifest truly describes passes, and tail, time, span start and live count are recomputed from it |
| `ChainCheck.CheckedIndexed` | timelite.c:814-912 | on any image whose chain is accepted, whatever its frames hold, the walked headers are a chain in place: damaged frames cannot mislead the lookup |
| `Manifests.ManifestRoundTrip` | timelite.c:363-455 | every manifest the engine writes is accepted and read back field by field, 32-bit narrowing included |
| `Layout.ManifestAt` | timelite.c:363-379 | both manifest encodings by byte positions |
| `Layout.SlotExact` | timelite.c:381-455 | a slot is valid exactly when it is the encoding of a manifest that obeys the numeric rules |
| `Manifests.ParseSlot` | timelite.c:381-455 | an accepted slot is sealed, its extent lies in the file and the capacity, and its segment count fits the table |
| `Manifests.LateTearDetected` | timelite.c:374-379 | a tear inside the checksum field is always detected |
| `Manifests.NarrowTearDetected` | timelite.c:434-439 | a torn slot that differs from a valid one in at most four consecutive bytes is detected |
| `Storage.IssueImage` | file_io.h:54-66 | issuing an operation adds only its own partial effects to what a crash may leave |
| `Storage.PartImage` | file_io.h:54-66 | an operation cut short leaves no image the whole operation could not leave |
| `Device.Files.Issue` | file_io.h:54-77 | an operation takes full effect, or fails having stopped somewhere inside |
| `Recovery.SummaryMeans` | timelite.c:1258-1278 | the running WAL summary is first, minimum, maximum and last time and whether the times are sorted |
| `Recovery.SelectsRoot` | timelite.c:744-810 | slot selection finds the authoritative manifest whatever the other slot holds |
| `Recovery.ChecksRoot` | timelite.c:1206-1210 | the authoritative chain passes validation with every derived value as in the data |
| `Recovery.RecoversContinuing` | timelite.c:1185-1305 | open accepts a coherent database with a WAL that continues it, cut tail included, and derives every handle value |
| `Recovery.RecoversRepeating` | timelite.c:1222-1305 | a WAL that only repeats installed batches is recognised as stale and set aside |
| `Recovery.RefusesShortHeader` | timelite.c:662-675 | 1..31 bytes of a frame header after the committed frames are refused |
| `Acceptance.ChosenExactly` | timelite.c:744-810 | open goes by exactly the manifest of the highest revision among those that lie in the slot of their parity |
| `Acceptance.UnusableExactly` | timelite.c:755-808 | without one a file of more than 160 bytes is given up, and only 32 bytes are taken for the old layout |
| `Acceptance.ChecksExactly` | timelite.c:814-912 | chain validation accepts exactly the chains that are as claimed: sound headers one behind the other, numbered onwards, linked, ending where, with the number, tail and time the manifest says, or with readable frames where it does not say the time |
| `Acceptance.DecidesExactly` | timelite.c:1208-1305 | with the chain verified, a WAL is accepted exactly if its frames follow the installed batches, the last one possibly cut behind its header, or repeat them up to the last; and without batches that follow, only if no byte of the database is unaccounted for |
| `Acceptance.OpensExactly` | timelite.c:1185-1305 | on every pair of images open decides to succeed if and only if manifest, chain and WAL fit together so |
| `Acceptance.OrphanRefused` | timelite.c:1287-1296 | bytes past the installed data with an empty WAL, or with one that only repeats installed batches, are refused, the marker byte of an empty retained database excepted |
| `Acceptance.ReadableExactly` | timelite.c:951-1036 | the chain a retention copies back is readable exactly when sound headers, each with the frames it announces, fill it |
| `Damage.DamagedSlotRefused` | timelite.c:1287-1296 | after an acknowledged checkpoint any damage to its manifest that fails the checksum is answered INVALID_DATABASE: open does not fall back to the older manifest and its fewer batches |
| `Damage.DamagedSlotByte` | timelite.c:1287-1296 | that includes any one byte of the slot |
| `Damage.DamagedWalRefused` | timelite.c:1242-1281 | any one changed byte of any committed WAL frame is refused: the frame is not dropped |
| `Damage.DamagedHeaderRefused` | timelite.c:814-912 | any one changed byte of any installed segment header is refused, whatever the WAL holds |
| `Pairs.CheckHeader` | timelite.c:336-359 | accepts exactly the headers of a created file, and tells another version from damage |
| `Pairs.CheckPair` | timelite.c:1185-1193 | two files pass exactly when both headers carry one identity, and are a mismatch exactly when they carry two |
| `Pairs.MatchedBytes` | timelite.c:637-651 | the pair by byte positions: the two magics, version 2, one identity, two checksums |
| `Pairs.PairKept` | timelite.c:1185-1193 | over every run and in every crash image both files keep their headers, so that comparison never comes to fail |
| `Pairs.CreatedMatched` | timelite.c:637-651 | a created pair starts that way |
| `Examination.ReadManifests` | timelite.c:744-810 | the slot loop selects the valid manifest of the highest revision |
| `Examination.ScanWal` | timelite.c:1242-1281 | the frame loop stops where and how the specification does, with the times of every record met |
| `Examination.Examine` | timelite.c:1185-1305 | the imperative open computes, on every pair of images, the decision the theorems are about, and accepts exactly the pairs of `Acceptance.OpensExactly` |
| `Stores.AppendedValid` | timelite.c:1434-1441 | an accepted append keeps the store valid and adds exactly one batch at the end |
| `Stores.CheckpointedValid` | timelite.c:1534-1541 | a checkpoint keeps the store valid and what is visible unchanged |
| `Stores.PreparedValid` | timelite.c:1817-1826 | publishing PREPARE changes no visible batch |
| `Stores.ExpiredValid` | timelite.c:1805-1816 | the retained store is valid |
| `Stores.KeptSubset` | timelite.c:915-947 | what is kept is exactly the segments that do not expire, and it is never longer |
| `Authority.FreeWriteStep` | timelite.c:949-950 | a write that meets neither the slots nor the extent leaves the authoritative root intact in every crash image |
| `Authority.TruncateStep` | timelite.c:1063-1069 | so does a truncation behind the extent during a retention |
| `Authority.HandOver` | timelite.c:361-362 | however much of the other slot is written, the old root or, with the whole slot, the new one is authoritative |
| `Authority.PublishStep` | timelite.c:457-482 | after a slot write either root survives any crash and reads see the new one |
| `Scripts.CopyOpsAmount` | timelite.c:951-1036 | copying a chain writes exactly the bytes of that chain at its new place, links included, and nothing outside |
| `Scripts.PhasesConverge` | timelite.c:1049-1075 | a retention resumed before or after CLEANUP was published ends in the same NORMAL manifest |
| `CrashSafety.StoppedSafe` | timelite.c:1463-1482 | a call that stops anywhere in its script, even inside one operation, leaves only images the script was proved safe for |
| `CrashSafety.PublishPiece` | timelite.c:457-482 | while a manifest is published one of the two stores survives every crash; after the sync the new one stands |
| `CrashSafety.RetainRoot` | timelite.c:442-455 | every retention manifest the engine builds is accepted by its own validity check |
| `CrashSafety.TailRegion` | timelite.c:949-957 | the front copy fits below the tail: source and destination never overlap |
| `CrashSafety.FinishSafely` | timelite.c:1038-1075 | finishing a retention from any phase keeps the retained segments durable at every crash point and ends in NORMAL |
| `Effects.AppendBytes` | timelite.c:1463-1482 | an acknowledged append adds exactly its frame, with the next sequence number, to the WAL, durably, and nothing else |
| `Effects.CheckpointBytes` | timelite.c:1581-1668 | an acknowledged checkpoint moves the frames of the WAL verbatim behind the installed data, which it does not touch, and leaves the 32-byte WAL header |
| `Effects.CheckpointHeader` | timelite.c:1583-1585 | the header in front of them by byte positions: ordered or not, sequences, length, extreme times and links |
| `Effects.CheckpointSlot` | timelite.c:1613-1634 | the published manifest by byte positions, in the slot of the next revision; the other slot is unchanged |
| `Effects.ExpireBytes` | timelite.c:1817-1840 | an acknowledged expiration leaves exactly the kept segments, relinked at the front, a file that ends with them or with the marker byte, and the WAL as it was |
| `Calls.AppendSafely` | timelite.c:1463-1478 | at every crash point of an append: the old batches, possibly with the new one; no assumption on torn writes is used |
| `Calls.CheckpointSafely` | timelite.c:1581-1664 | at every crash point of a checkpoint: the same batches; the WAL is cut only once the manifest covering it is durable |
| `Calls.ExpireSafely` | timelite.c:1817-1840 | at every crash point of an expiration: the old batches or exactly the retained ones |
| `Calls.CutExact` | timelite.c:1317-1324 | cutting the WAL where open does leaves exactly the pending batches |
| `Calls.OpenSafely` | timelite.c:1306-1324 | recovery can be interrupted anywhere without loss, and completed leaves the store durable in both files |
| `Cursors.ReflectionUnique` | timelite.c:1329-1348 | two handles of the same store agree in every value that is in use |
| `Cursors.NextReads` | timelite.c:1686-1753 | from any place a read returns the next visible batch and moves by one, or END after the last |
| `Cursors.DrainsRest` | timelite.c:1686-1753 | draining from any place returns exactly the remaining batches |
| `Cursors.RewoundReadsAll` | timelite.c:1675-1683 | draining a rewound cursor returns every visible batch |
| `Cursors.DrainUnique` | timelite.c:1686-1753 | what draining returns is determined by the bytes |
| `Identity.PairDetermines` | timelite.c:1185-1348 | the bytes of a pair determine the store and the manifest: reopening is the identity |
| `Identity.OpeningReflects` | timelite.c:1329-1348 | every handle value open derives is the value of the store |
| `Maintenance.AppendReflects` | timelite.c:1483-1501 | the handle after an append is the one open would derive |
| `Maintenance.CheckpointSpan` | timelite.c:1636-1649 | the span start kept by checkpoint is the one the header walk finds, for ordered, unordered, old-header and retained tails |
| `Maintenance.CheckpointReflects` | timelite.c:1636-1672 | the handle after a checkpoint is the one open would derive |
| `Engine.ExpireSettles` | timelite.c:1841-1858 | after an expiration the pair is ready, re-validation accepts the kept chain, and the handle filled from its answer is the one open would derive |
| `Engine.Resettle` | timelite.c:1845-1888 | the handle and cursor after an expiration stand for the retained store, and the future is the surviving old one |
| `Queries.VisibleRising` | timelite.c:1686-1753 | visible batches come in strictly increasing sequence, each once |
| `Queries.PlaceSplits` | timelite.c:1859-1880 | a cursor place separates smaller sequences from those it still expects |
| `Queries.SeekFrames` | timelite.c:1962-1984 | finds the first batch up to the limit whose last time reaches the bound, or shows there is none |
| `Queries.SeekPrefix` | timelite.c:2001-2021 | the unordered prefix is scanned completely |
| `Queries.SearchSpans` | timelite.c:2022-2041 | binary search over the ordered suffix: no batch before the result reaches the bound |
| `Queries.Seek` | timelite.c:1986-2070 | lands on the first batch in sequence order whose last record time reaches the bound, END exactly when none does |
| `Ranges.LaterNotBefore` | timelite.c:2110-2142 | from the ordered sequence on no later batch holds an earlier time |
| `Ranges.StopSound` | timelite.c:2176-2180 | after the early stop nothing can match |
| `Ranges.FindOrdered` | timelite.c:2110-2142 | the computed sequence is the first from which times are known not to decrease |
| `Ranges.MatchingFiltered` | timelite.c:2072-2077 | a record is returned if and only if from <= time < until and, with a filter, its series is the one asked for; each once, in the order of the batch |
| `Ranges.Collect` | timelite.c:2151-2170 | the record loop collects those records |
| `Ranges.NextRange` | timelite.c:2079-2182 | returns the records asked for of the next batch that has any, END exactly when no remaining batch has one; otherwise the cursor stays |
| `Ranges.Accumulate` | timelite.c:2217-2229 | the running count, minimum and maximum are those of all records so far |
| `Ranges.AggregateMeans` | timelite.c:2184-2236 | the fold is the number of places at which a record asked for lies, and the least and greatest value there, zero without any |
| `Ranges.AggregateRange` | timelite.c:2184-2236 | that number and those values over every visible batch, whatever the cursor |
| `Transparency.AppendKeepsPlace` | timelite.c:1483-1502 | an append leaves the cursor at its place |
| `Transparency.CheckpointKeepsPlace` | timelite.c:1651-1657 | a cursor moved by a checkpoint has the same batches before it |
| `Transparency.SurvivingVisible` | timelite.c:951-1036 | retention removes exactly the batches of expired segments and keeps the order |
| `Transparency.ExpireExactly` | timelite.c:915-947 | an installed batch is kept if and only if some record of its segment is at or past the cutoff; batches of the WAL are always kept |
| `Transparency.FutureAfterExpire` | timelite.c:1859-1886 | the future of the relocated cursor is its old future without the expired batches |
| `Runs.StepKeeps` | timelite.c:1306-1324 | every call, failure, crash, close and open keeps the invariant that each crash image holds one of the tracked stores |
| `Runs.RunSafe` | timelite.c:1077-1362 | main theorem: over every interleaving of calls, failures, crashes, closes and opens the disk holds one of the tracked stores, and an open that succeeds shows one of those tracked before it |
| `Runs.NeverStuck` | timelite.c:1222-1296 | with the handle down, open finds one of them; it refuses only 1..31 bytes of a frame header |
| `Runs.UsableReads` | timelite.c:1306-1324 | a usable handle reads exactly its store, each batch once in rising sequence, and everything it reads is durable |
| `Runs.NoInvention` | timelite.c:1401-1503 | the batches shown are old ones of one starting store and, behind them, batches of append events of the run, each event used at most once and in order, contents unchanged |
| `Runs.AckedAppend` | timelite.c:1463-1502 | an acknowledged append is in every tracked store |
| `Runs.NoLoss` | timelite.c:1770-1890 | a batch shown by all tracked stores stays until an expiration past all its records |
| `Runs.NoResurrection` | timelite.c:1770-1890 | a removed batch never returns and its sequence number is never used again |
| `Runs.RetentionConverges` | timelite.c:1038-1075 | after a failed expiration and any number of crashes and failed recoveries, open ends in NORMAL with the old or the retained batches, at most four revisions on |
| `Runs.CreatedPairReady` | timelite.c:637-651 | a created pair satisfies the invariant, and its headers are accepted and carry the same identity |
| `Manifests.PairHeaderAccepted` | timelite.c:336-359 | a created header passes the header check and carries its identity |
| `Relocation.ExpiresMeans` | timelite.c:922-924 | a segment expires exactly when every record time lies below the cutoff |
| `Relocation.SegmentExpires` | timelite.c:915-947 | decides that for every kind of header, reading the frames where the header has no maximum |
| `Relocation.PatchLinks` | timelite.c:990-995 | patching the links of a header gives the header of the same segment at its new place |
| `Relocation.TableAdvances` | timelite.c:980-1005 | the copier keeps the table invariant for the chain it builds, and takes each skip link from it |
| `Relocation.CopyFrames` | timelite.c:1007-1029 | on any image whose source it does not touch, writes exactly the frames that read, and succeeds exactly when they fill the extent in the right number |
| `Relocation.FramesCopied` | timelite.c:1007-1029 | on a run of whole frames those writes are the frames of the batches, and it succeeds |
| `Relocation.CopySegment` | timelite.c:985-1029 | one segment on any image: patched header, then frames, damage reported exactly when a frame does not read |
| `Relocation.SegmentCopied` | timelite.c:985-1029 | on a segment of a chain the writes are those of that segment with its new links |
| `Relocation.CopySegments` | timelite.c:951-1036 | performs exactly the script that rebuilds the kept chain, with its end and tail, or stops inside it; an unfiltered copy of any image reports damage exactly when some header or frame does not read |
| `Retention.PublishRetention` | timelite.c:457-482 | next revision into the other slot and sync, or EOVERFLOW exactly at the last revision |
| `Retention.CleanUp` | timelite.c:1062-1074 | truncates behind the front copy, keeping the marker byte of an empty database, and publishes NORMAL |
| `Retention.FinishRetention` | timelite.c:1038-1075 | performs exactly the finishing script of the phase found; on any image of a valid slot it answers EOVERFLOW, damage or success as the revision and the readability of a tail decide |
| `Expiry.Prescan` | timelite.c:1786-1804 | the pre-scan totals are the bytes, segments and batches that will be kept |
| `Expiry.Replace` | timelite.c:1817-1840 | the four-phase file script of an expiration, or a stop inside it; within the up-front check no later step overflows |
| `Expiry.RecheckAccepts` | timelite.c:1852-1857 | re-validating the chain after the last publication accepts it and returns span start and live count |
| `Expiry.RelocationAccepted` | timelite.c:951-1036 | the chain rebuilt anywhere holds exactly the surviving batches in order, and passes validation |
| `Expiry.Relocate` | timelite.c:1859-1886 | finds the first surviving batch at or past the wanted sequence, or the end |
| `Expiry.RelocatedFuture` | timelite.c:1827-1886 | through the 64-bit read sequence, wrap-around included, the relocated future is the surviving old future |
| `Engine.InOrder` | timelite.c:1425-1433 | the record loop accepts exactly sorted times that do not start below the last one |
| `Engine.CheckAppend` | timelite.c:1411-1441 | answers of the append checks, in their order |
| `Engine.CheckCheckpoint` | timelite.c:1525-1541 | answers of the checkpoint checks; nothing to do on an empty WAL |
| `Engine.CheckExpire` | timelite.c:1786-1816 | answers of the expiration checks on the pre-scan totals |
| `Engine.AppendVerdict` | timelite.c:1411-1441 | an append has its effect exactly when no check objects |
| `Engine.AppendJudged` | timelite.c:1411-1441 | in numbers: what each refusal of append means and that they are tried in this order: 1 to 64 records; times that decrease in the batch or against the committed ones; 64 MiB; the last sequence number |
| `Engine.MaintenanceJudged` | timelite.c:1525-1541 | in numbers: when checkpoint and expire refuse, for the last revisions or for 1 GiB, and when they have nothing to do |
| `Engine.WriteFrame` | timelite.c:1467-1478 | body, sync, commit, sync, or a stop inside |
| `Engine.FindLinks` | timelite.c:1544-1562 | the skip link found through the index is the chain link, and the prior maximum is that of the last segment |
| `Engine.NewHeaderIs` | timelite.c:1583-1585 | the header encoded from the handle is the header of the new segment |
| `Engine.NextManifestIs` | timelite.c:1613-1626 | the manifest encoded from the handle describes the checkpointed store and goes into the other slot |
| `Engine.WriteNewSegment` | timelite.c:1581-1610 | header, re-validated frames and sync of the new segment, or a stop inside |
| `Engine.InstallSegment` | timelite.c:1581-1634 | segment, sync, manifest, sync, in that order, or a stop inside the checkpoint script |
| `Engine.Reclaim` | timelite.c:1658-1668 | cuts and syncs the WAL as the last step of the checkpoint script |
| `Engine.Batches.constructor` | timelite.c:289-318 | a new handle is closed |
| `Engine.Batches.Append` | timelite.c:1401-1503 | the call is one step of the system: done, rejected without effect, or failed inside its script and poisoned; the future gains exactly the new batch |
| `Engine.Batches.Checkpoint` | timelite.c:1505-1673 | the call is one step of the system; the future is unchanged |
| `Engine.Batches.ExpireBefore` | timelite.c:1770-1890 | the call is one step of the system; the future is the old one with exactly the expired batches removed |
| `Engine.Batches.Next` | timelite.c:1910-1950 | returns the first batch of the future and removes it, or END; too small a buffer changes nothing; a closed or poisoned handle answers so and keeps its cursor |
| `Engine.Batches.Rewind` | timelite.c:1675-1683 | the future is every visible batch; a closed or poisoned handle answers so and keeps its cursor |
| `Engine.Batches.SeekTo` | timelite.c:1986-2070 | the cursor stands at the first batch whose last record time reaches the bound, or at the end; a closed or poisoned handle answers so |
| `Engine.Batches.NextInRange` | timelite.c:2079-2182 | the records asked for of the next batch that has any, skipping only batches without; a closed or poisoned handle answers so |
| `Engine.Batches.Summarize` | timelite.c:2184-2236 | number, least and greatest value of the records asked for; the cursor is untouched; a closed or poisoned handle answers so |
| `Engine.Batches.GetStatus` | timelite.c:1377-1399 | the seven status values: visible, installed and pending batches, segments, bytes of the WAL file and of the extent, last time; a closed or poisoned handle answers so |
| `Engine.Batches.Close` | timelite.c:711-739 | closing resets the handle whatever the native closes report, is a step of the system and leaves the files alone |
| `Engine.Repair` | timelite.c:1306-1324 | provision both files, finish a retention, cut the WAL; on any images the answer is decided before the first effect; on a coherent pair never EOVERFLOW or damage |
| `Engine.AnswersExactly` | timelite.c:1038-1047 | open succeeds, when no operation fails, if and only if the pair is acceptable and a retention in progress has two revisions left and, in phase 2, a whole chain to copy back |
| `Engine.Batches.Restore` | timelite.c:1198-1362 | on any pair of images answers as decided unless an operation fails, with the status of the decision; a pair that is not acceptable is refused untouched; a coherent pair is recovered to its store, or recovery fails inside its script |
| `Engine.Batches.Open` | timelite.c:1185-1362 | the same behind the comparison of the headers: files that are no pair are refused untouched, as a mismatch exactly when both headers are valid |
| `Engine.OpeningBounds` | timelite.c:442-455 | the extent open accepts lies in the file, at the front unless a tail is to be copied back, and then does not overlap its copy |
| `Inspection.InspectSlot` | tools/inspect/inspect.c:311-416 | accepts exactly the slots open accepts, with the same fields, on all bytes |
| `Inspection.InspectSegment` | tools/inspect/inspect.c:418-502 | accepts exactly the headers open accepts, with the same fields, on all bytes |
| `Inspection.InspectFrame` | tools/inspect/inspect.c:507-602 | classifies every frame as open does, with a summary of its record times |
| `Inspection.InspectSlots` | tools/inspect/inspect.c:660-690 | the slot loop chooses the slot open chooses |
| `Inspection.Inspector.InspectManifests` | tools/inspect/inspect.c:653-763 | slot selection agrees with open on every image |
| `Inspection.InspectFrames` | tools/inspect/inspect.c:768-804 | counts the frames that read and ends with the last time, on any bytes |
| `Inspection.InspectWalk` | tools/inspect/inspect.c:808-868 | the walk predicts an error exactly when open's walk fails |
| `Inspection.InspectChain` | tools/inspect/inspect.c:808-912 | computes the verdict on the chain, on every image |
| `Inspection.ChainAgreesExactly` | tools/inspect/inspect.c:808-912 | that verdict agrees with chain validation if and only if the manifest is dated, the walk already refuses, or the last segment holds the frames its header says |
| `Inspection.InspectWalFrames` | tools/inspect/inspect.c:961-998 | the WAL loop stops where open does, with the same order flag judged frame by frame |
| `Inspection.InspectWal` | tools/inspect/inspect.c:917-1034 | decides on every image what open decides after its walk |
| `Inspection.Verify` | tools/inspect/inspect.c:1141-1201 | computes the prediction on every pair of images |
| `Inspection.PredictsOpen` | tools/inspect/inspect.c:1128-1137 | on every dated image the prediction is what open answers and its seven status values if and only if open refuses at once or a retention in progress can be finished |
| `Inspection.PredictsUndated` | tools/inspect/inspect.c:1128-1137 | on an undated image it is so if and only if the WAL is refused anyway, the chains agree, or they differ only in a last time that the WAL replaces |
| `Inspection.PredictsProtocol` | tools/inspect/inspect.c:1128-1137 | on every database the protocol can leave the prediction is open's answer, for a coherent pair the status of its store |
| `Inspection.OverflowImage` | timelite.c:1044-1047 | an image on which open answers EOVERFLOW while the inspector predicts success |
| `Inspection.UndatedImage` | timelite.c:884-891 | an image with an undated manifest on which open succeeds while the inspector predicts failure |
| `Upgrade.SmallSelects` | timelite.c:755-808 | below 160 bytes no slot is valid: the database counts as empty, and as the old layout only at 32 bytes |
| `Upgrade.SmallOpens` | timelite.c:1185-1348 | a database of less than 160 bytes opens with exactly the batches of the WAL |
| `Upgrade.FreshRecovers` | timelite.c:1565-1580 | from every interruption of the first checkpoint of a 32-byte database, the added slots included, open recovers exactly the same batches |
| `Upgrade.TornInvalid` | timelite.c:381-412 | an incomplete first slot is never valid |
| `Upgrade.UpgradeStuck` | timelite.c:805-808 | for any pair headers: a crash can leave eight slot bytes, open accepts that pair with its batch, and a checkpoint interrupted after its first write makes it unopenable |
| `Upgrade.LegacyCheckpoint` | timelite.c:1565-1580 | from every interruption of its next checkpoint a partly upgraded database reopens with exactly its batches, if and only if it still has 32 bytes or its first slot is complete |

## Left out

- Runs.RunSafe: starts from a pair with one valid durable manifest slot; the 32-byte layout
  and its upgrade are covered by `Upgrade` only.
- Engine.Batches.Checkpoint: the branch that adds slots to a 32-byte database is not
  part of the class; `Upgrade.LegacyOps` models it as a script.
- Engine.Batches.Open: creation, path handling and owner locks are not modelled; on images
  outside the protocol its answer and status values are stated, not what later calls on that
  handle do.
- Device.Files.Issue: reads do not fail and files are not changed by others; crash
  images are prefixes of the unsynced operations, so reordering of unsynced writes
  within one file is not modelled.
- Inspection.Verify: printing, the pair headers, reported problems and record totals are not modelled.
- `file_io.c` and `file_io_windows.c`: system calls, short transfers and error mapping.
- The version 1 lifecycle interface.
- NULL pointers, scratch sizes and flag values: one-branch argument checks.
- Encoding a frame into the scratch buffer in place: the buffer is a value.
- Collision probability of the checksum and deliberate edits of the files.
- `tools/` other than the inspector's verification, tests, build and examples.
