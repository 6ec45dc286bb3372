# umi-checker, modelled in Dafny

umi-checker reads sequencing records (FASTQ, gzipped FASTQ, BAM or SAM). For
each record it takes the UMI (unique molecular identifier) written at the end
of the record's header and asks whether that UMI also occurs inside the read's
bases, allowing a small number of mismatches. Records whose UMI is found go to
the "removed" output; all other records go to the "kept" output.

This project models the sequential core of the tool as pure Dafny functions
over byte strings, plus a few methods with loops. It proves what the core
promises.

| file | module | models |
|---|---|---|
| `wrappers.dfy` | `Wrappers`, `Bytes` | `Option` and `Result`; bytes as `bv8` |
| `fixtures.dfy` | `Fixtures` | the byte strings of the unit tests that several modules' examples share |
| `matcher.dfy` | `Matcher` | `hamming_distance` by its per-byte rule; `is_umi_in_read` with its three paths (exact, plain scan, pigeonhole-filtered scan) |
| `swar.dfy` | `Swar` | the 8-byte word tricks `count_nonzero_bytes` and `is_n_mask`, `hamming_distance` as written, block by block, and `is_umi_in_read` with that distance |
| `header.dfy` | `Header` | `extract_umi_from_header`: UTF-8 check, first whitespace token, last `:`/`_` field, length check, upper-casing |
| `io.dfy` | `Io` | FASTQ and BAM records; the writer variants and what `write_fastq`/`write_bam`/`write_to` append; a parser for the FASTQ text the writer emits |
| `processing.dfy` | `Processing` | `process_batch` (classify, then route in order); the batching loops of `process_fastq` and `process_bam` |
| `cli.dfy` | `Cli` | `FileType::from_path`, `suffix_info`, `build_output_paths`, and the mismatch-limit check |

Modelling choices:

- **Bytes and the distance.**
  - Bytes are `bv8`, so the word-parallel code can be stated over `bv64` lanes.
  - `Matcher.HammingDistance` is the per-byte rule: a position counts when the bytes differ or either byte is `N` (0x4E).
  - `Swar.SwarHammingDistance` is the 8-byte-block code exactly as written, and is proved equal to the per-byte rule whenever no byte is 0x4F.
  - `Matcher.IsUmiInRead`, and the pipeline built on it, scores windows with the per-byte rule. `Swar.IsUmiInReadAsWritten` is the search with the 8-byte-block distance that the source calls. The two agree whenever neither the UMI nor the read holds the byte 0x4F (see Findings).
- **Panics as values.** Panics are an explicit `Processing.Panic` outcome:
  - a UMI whose length differs from the expected one (lib.rs);
  - `windows(0)` on an empty UMI;
  - the `u32` overflow of `max_mismatches + 1` at `max_mismatches == u32::MAX`.

  `Matcher.MatcherDefined` is the exact condition under which `is_umi_in_read` returns rather than panics.
- **Headers.** `Header.ExtractUmiFromHeader` returns `NoUmi` where the source returns `None`, `Umi(u)` where it returns `Some(u)`, and `LengthMismatch` where it panics. Whitespace is Unicode `White_Space`, as in `str::split_whitespace`. UTF-8 validity is checked concretely, with the well-formed byte-sequence table.
- **Records and writers.**
  - A record is `FastqRecord(head, bases, qual)` or `BamRecord(rec, bases)`.
  - A writer is one of:
    - `FastqWriter(out)`, the bytes written so far;
    - `BamWriter(written)`, the alignments written so far;
    - `Sink`, which discards everything.
- **Streams.**
  - An input stream is the sequence of records that parse, plus whether reading then fails.
  - `process_fastq`'s input is one of four cases:
    - a zero-byte file;
    - a file the parser calls empty;
    - a file the parser rejects;
    - a stream of records.
  - A BAM input is either unopenable or a stream.
- **Parallelism.** The parallel map of `process_batch` is a sequential map. When several records of a batch would panic, the model reports the leftmost one.

Where the documentation and the code disagree, the model follows the code, with one exception: the distance the search uses, which follows the documented per-byte rule (last item below).

- Only upper-case `N` counts as ambiguous; the doc comment of `hamming_distance` also names `n`. `Matcher.HammingDistanceToSelfCountsN` states this.
- With a limit of 0 the matcher compares windows by plain byte equality, so `N` matches `N`. With a limit of 1 or more, `N` always mismatches. So the result is not monotone between 0 and 1 (`Matcher.ZeroMismatchPathIsNotMonotone`); it is monotone from 1 upwards (`Matcher.IsUmiInReadMonotone`).
- `src/processing.rs:96` uses a writer variant `Sink` that the enum at `src/io.rs:13-16` does not declare. The model adds it: a writer that accepts every write and keeps nothing.
- `is_n_mask` is documented as flagging exactly the `N` bytes. A borrow in its subtraction also flags a 0x4F byte that sits just above an `N` byte. The pipeline uses the documented rule; the code as written is `Swar.SwarHammingDistance` and `Swar.IsUmiInReadAsWritten` (see Findings).

## Model

| member | source | states |
|---|---|---|
| Matcher.HammingDistance | src/matcher.rs:43-77 | requires equal lengths (the `assert_eq!`); the distance never exceeds the length |
| Matcher.HammingDistanceCountsMismatches | src/matcher.rs:70-75 | the distance is the number of positions where the bytes differ or either one is `N` |
| Matcher.HammingDistanceSymmetric | src/matcher.rs:55-56 | swapping the two strings does not change the distance |
| Matcher.HammingDistanceToSelfCountsN | src/matcher.rs:28-33 | a string compared with itself scores exactly one per upper-case `N`; `n` is not counted |
| Matcher.HammingDistanceAppend | src/matcher.rs:46-75 | the distance of concatenations is the sum of the distances of the parts, as the block-plus-tail split relies on |
| Matcher.HammingDistanceZero | src/matcher.rs:154-158 | distance 0 holds exactly when the strings are equal and hold no `N` |
| Matcher.SingleSubstitutionCostsOne | src/matcher.rs:71 | replacing one non-`N` byte by a different non-`N` byte adds exactly one mismatch |
| Matcher.TwoMismatches | src/matcher.rs:161-166 | strings that agree, without `N`, except at one inner and one final position score 2 |
| Matcher.DistanceExamples | src/matcher.rs:153-166 | `ACGTACGT` against itself scores 0; `ACGTNACGTA` against `ACGTAACGTT` scores 2 |
| Matcher.ChunkRange | src/matcher.rs:123-134 | the range of chunk `idx` lies within the UMI and does not run backwards |
| Matcher.ChunkRangesPartition | src/matcher.rs:123-134 | the `m+1` chunk ranges are non-empty, start at 0, each ends where the next starts, and the last ends at the UMI length |
| Matcher.UnmatchedChunksCostMismatches | src/matcher.rs:116-117 | if none of chunks 0..c matches, the prefix they cover has at least c+1 mismatches |
| Matcher.HasMatchingChunk | src/matcher.rs:137-142 | a window equal to the UMI always has a matching chunk; the filter's meaning is stated by `Matcher.PigeonholeChunk` and `Matcher.ChunkFilterExact` |
| Matcher.PigeonholeChunk | src/matcher.rs:114-121 | a window within `m` mismatches has a chunk that matches exactly (the filter never rejects a qualifying window) |
| Matcher.AnyWindow | src/matcher.rs:145-146 | the scan succeeds exactly when some window from the start position passes the test |
| Matcher.ChunkFilterExact | src/matcher.rs:137-146 | for `m >= 1`, "some chunk matches and the distance is within m" accepts exactly the windows within m |
| Matcher.IsUmiInRead | src/matcher.rs:89-147 | a read shorter than the UMI gives false; with limit 0 the result is true exactly when the UMI occurs byte-for-byte; with limit m >= 1 exactly when some window is within m mismatches |
| Matcher.IsUmiInReadMonotone | src/matcher.rs:103-146 | for limits 1 <= m1 <= m2, a match at m1 is a match at m2 |
| Matcher.ZeroMismatchPathIsNotMonotone | src/matcher.rs:98-100 | UMI `NN` in read `NN` matches with limit 0 but not with limit 1 |
| Matcher.ExactExample | src/matcher.rs:170-172 | the unit test's UMI is found in `GGGGACGTACGTACGTGGGG` with limit 0 |
| Matcher.ExampleReadHasNoExactWindow | src/matcher.rs:174-176 | no window of `GGGGACGTACGAACGTGGGG` equals the UMI |
| Matcher.ExampleReadHasCloseWindow | src/matcher.rs:174-175 | some window of that read is within one mismatch of the UMI |
| Matcher.OneSubstitutionExample | src/matcher.rs:174-176 | the UMI is not found in that read with limit 0 but is found with limit 1 |
| Matcher.RoutingReads | src/processing.rs:211-230 | `ACGT` is found in `XXXXACGTYYYY` and `TTTT` is not found in `AAAAAAAA` with limit 0, and neither call panics |
| Swar.PackLanes | src/matcher.rs:51-52 | lane i of the packed word is byte i of the block |
| Swar.MarkNonzeroLanes | src/matcher.rs:10-16 | the or-shifts and mask leave each lane 1 if it was non-zero and 0 otherwise |
| Swar.HorizontalSum | src/matcher.rs:18-19 | for 0/1 lanes, the wrapping multiply and shift by 56 is the sum of the lanes |
| Swar.LaneSumCountsLanes | src/matcher.rs:18-19 | the sum of 0/1 lanes is the number of non-zero lanes |
| Swar.CountNonzeroBytes | src/matcher.rs:9-20 | the result is the number of non-zero byte lanes, at most 8 |
| Swar.IsNMask | src/matcher.rs:28-33 | the mask has no bit set outside the high bit of each lane |
| Swar.IsNMaskFlagsEveryN | src/matcher.rs:28-33 | every lane holding `N` gets 0x80, whatever the other lanes hold |
| Swar.IsNMaskExact | src/matcher.rs:22-33 | with no 0x4F lane, the mask is exactly 0x80 on the `N` lanes and 0 elsewhere |
| Swar.LaneRule | src/matcher.rs:55-58 | per lane, xor-or-mask is non-zero for every mismatching pair, and only for those when the masks are exact |
| Swar.LanesOfOrXor | src/matcher.rs:55-58 | xor and or act lane by lane |
| Swar.LanesVersusMismatches | src/matcher.rs:58 | a word that flags every mismatching lane has at least as many non-zero lanes as mismatches, and exactly as many if it flags nothing else |
| Swar.BlockFlagsEveryMismatch | src/matcher.rs:50-58 | the block's flag word flags every mismatching position |
| Swar.BlockFlagsOnlyMismatches | src/matcher.rs:50-58 | without 0x4F bytes, the block's flag word flags only mismatching positions |
| Swar.BlockDistance | src/matcher.rs:50-58 | one block's count is at least the block's per-byte distance and at most 8 |
| Swar.SwarHammingDistance | src/matcher.rs:43-77 | the block-plus-tail code never counts fewer mismatches than the per-byte rule and never more than the length |
| Swar.SwarHammingDistanceExact | src/matcher.rs:35-39 | without 0x4F bytes, the block-plus-tail code equals the per-byte rule |
| Swar.SwarOvercountsAfterN | src/matcher.rs:28-33 | `NOAAAAAA` compared with itself has one mismatch by the per-byte rule but the code reports 2 |
| Swar.SwarDistanceExamples | src/matcher.rs:153-166 | the code itself scores the unit tests' pairs 0 and 2 |
| Swar.SwarPigeonholeChunk | src/matcher.rs:114-121 | the chunk filter rejects no window within `m` by the 8-byte-block distance either |
| Swar.SwarAnyWindow | src/matcher.rs:103-146 | the scan, with or without the chunk filter, succeeds exactly when some window is within `m` by the 8-byte-block distance |
| Swar.IsUmiInReadAsWritten | src/matcher.rs:89-147 | `is_umi_in_read` as written: false for a short read; with limit 0 exactly a byte-for-byte occurrence; with limit m >= 1 exactly when some window is within m by the 8-byte-block distance |
| Swar.AsWrittenMatcherAgrees | src/matcher.rs:103-146 | with no 0x4F byte in the UMI or the read, the search as written and `Matcher.IsUmiInRead` give the same answer |
| Swar.AsWrittenMatcherMissesNThenO | src/matcher.rs:28-146 | UMI and read `NOAAAAAA` with limit 1: the per-byte search finds it and the code as written does not |
| Header.ValidUtf8 | src/lib.rs:13 | the bytes split into well-formed UTF-8 characters; stated by `Header.AsciiIsValidUtf8` and `Header.MalformedExamples` |
| Header.Utf8CharLen | src/lib.rs:13 | a character's length is 1 exactly for ASCII, never runs past the end, and multi-byte characters continue with 0x80-0xBF bytes |
| Header.AsciiIsValidUtf8 | src/lib.rs:13 | ASCII headers pass the UTF-8 check |
| Header.MalformedExamples | src/lib.rs:13 | a stray continuation byte and an encoded surrogate are rejected |
| Header.WhitespaceLen | src/lib.rs:17 | a whitespace match is a whole character; on ASCII bytes it is exactly tab, LF, VT, FF, CR and space |
| Header.TokenEnd | src/lib.rs:17 | a token runs up to the first whitespace or the end, and contains no whitespace |
| Header.FirstToken | src/lib.rs:16-18 | there is no token exactly when the header is whitespace only; a token is non-empty and no whitespace character, ASCII or not, starts in it |
| Header.FirstTokenDelimited | src/lib.rs:16-18 | a token found is preceded in the header by whitespace only and followed by whitespace or the end |
| Header.FirstTokenOfShape | src/lib.rs:16-18 | any non-empty whitespace-free token after whitespace only and before whitespace or the end is the first token, so the facts above single it out |
| Header.FirstTokenOfAscii | src/lib.rs:16-18 | a non-blank ASCII token followed by whitespace or the end is the first token |
| Header.LastField | src/lib.rs:19-20 | the field is the longest suffix of the token without `:` or `_`, preceded by a separator unless it is the whole token |
| Header.LastFieldWithoutSeparator | src/lib.rs:19-20 | a token without `:` or `_` is its own last field |
| Header.LastFieldAfterSeparator | src/lib.rs:19-20 | after `prefix + sep + field`, with no separator in `field`, the last field is `field` |
| Header.UpperByte | src/lib.rs:31 | the result is never lower-case; a changed byte was lower-case and moved down by 0x20 |
| Header.AsciiUppercase | src/lib.rs:31 | same length, no lower-case byte, and every changed byte was a lower-case letter |
| Header.AsciiUppercaseIdempotent | src/lib.rs:31 | upper-casing twice is upper-casing once |
| Header.AsciiUppercaseKeepsUpper | src/lib.rs:31 | a string without lower-case letters is left unchanged |
| Header.ExtractUmiFromHeader | src/lib.rs:12-32 | no UMI exactly when the header is not UTF-8 or has no token (is whitespace only); a UMI has the expected length and no lower-case letter; a length mismatch carries the expected length and a different found one |
| Header.ExtractFromBuiltHeader | src/lib.rs:16-31 | for `id + sep + umi + comment`, extraction yields the upper-cased UMI when its length is expected, and a length mismatch otherwise |
| Header.ExtractFromShape | src/lib.rs:12-32 | for every valid header of leading whitespace, a token, and whitespace or the end, the result is the token's last field upper-cased when its length is expected, and the length mismatch otherwise |
| Header.WhitespaceOnlyHeader | src/lib.rs:16-18 | a header of a space and a tab yields no UMI |
| Header.NonAsciiWhitespaceHeader | src/lib.rs:16-31 | an ideographic space and a space before `acgt r` are skipped, and the separator-free token `acgt` yields `ACGT` |
| Header.TrailingSeparatorAborts | src/lib.rs:22-29 | a first token ending in `:` or `_` gives an empty field, so any positive expected length aborts |
| Header.ExtractExample | src/lib.rs:38-43 | `READ_12345:ACGTACGTACGT` with length 12 yields `ACGTACGTACGT` |
| Header.RoutingHeaders | src/processing.rs:211-222 | `r1:ACGT` and `r2:TTTT` with length 4 yield `ACGT` and `TTTT` |
| Io.Record.Header | src/io.rs:64-86 | a FASTQ record's header is its stored head; a BAM record's header is its read name |
| Io.FastqEntry | src/io.rs:29-44 | the entry has length head + bases + quality + 6, starts with `@` and ends with a newline |
| Io.WriteFastq | src/io.rs:33-44 | a writer that is not a FASTQ writer is left unchanged; a FASTQ writer stays one |
| Io.WriteBam | src/io.rs:19-27 | a BAM writer gains exactly one alignment, the record written, after what it held; any other writer is left unchanged |
| Io.WriteTo | src/io.rs:67-69 | writing a record never changes the writer's kind, and a sink stays a sink |
| Io.WriteAll | src/processing.rs:47-55 | writing records in turn never changes the writer's kind, and a sink stays a sink; the contents are stated by `Io.WriteAllFastq` and `Io.WriteAllBam` |
| Io.WriteAllAppend | src/processing.rs:47-55 | writing two sequences in turn is writing their concatenation |
| Io.WriteAllFastq | src/io.rs:33-44 | a FASTQ writer receiving FASTQ records ends with its old bytes followed by each record's entry, in order |
| Io.WriteFastqAppends | src/io.rs:67-69 | a FASTQ record appends its own head, bases and quality to a FASTQ writer |
| Io.Alignments | src/io.rs:83-85 | the alignments are the records' own, in order |
| Io.WriteAllBam | src/io.rs:83-85 | a BAM writer receiving BAM records ends with its old alignments followed by theirs, in order |
| Io.WriteAllIgnoresOtherFormat | src/io.rs:22-44 | a FASTQ writer ignores BAM records and a BAM writer ignores FASTQ records |
| Io.ReadLine | src/io.rs:35-41 | a line splits at its first newline, and there is none exactly when the text has no newline |
| Io.ReadLineRoundTrip | src/io.rs:37 | reading a line back from `line + newline + rest` gives `line` and `rest` |
| Io.ParseEntrySound | src/io.rs:33-44 | whatever parses as an entry was written by the writer from newline-free fields |
| Io.ParseEntryRoundTrip | src/io.rs:33-44 | parsing the writer's output gives back the head, the bases and the quality |
| Io.MissingQualityIsEmpty | src/io.rs:29-32 | a record without quality is written as one with an empty quality line, with the `+` line still present |
| Io.EntryOpensWithHeader | src/io.rs:35-37 | an entry opens with `@` and the header |
| Io.FastqOutputRoundTrip | src/io.rs:33-44 | parsing the whole FASTQ output gives back every written record's fields, in order |
| Processing.MatcherPanic | src/matcher.rs:99-107 | the panic is the `u32` overflow exactly when the limit is `u32::MAX`; otherwise it comes from an empty UMI window |
| Processing.Classify | src/processing.rs:35-41 | a record is flagged only when its header yields a UMI, and panics only when it yields one, or a length mismatch |
| Processing.ClassifyDecides | src/processing.rs:35-41 | a record is flagged exactly when its header yields a UMI found in its read; no UMI means kept; a length mismatch or an undefined match panics, and nothing else does |
| Processing.ShortReadIsKept | src/matcher.rs:93-95 | a read shorter than its UMI goes to the kept writer |
| Processing.MapAt | src/processing.rs:33-42 | the map keeps the order: element i of the result is the closure applied to element i |
| Processing.CollectMeaning | src/processing.rs:42 | collecting succeeds exactly when no record panics, and then the flags are the records' outcomes in order |
| Processing.CollectReportsFirstPanic | src/processing.rs:42 | the panic reported is the first one in the batch |
| Processing.ClassifyAll | src/processing.rs:33-42 | a successful batch classification has one flag per record |
| Processing.ClassifyAllRecords | src/processing.rs:33-42 | the batch's flags are its records' flags, in order; a panic is the first record's panic with all earlier records fine |
| Processing.ClassifyAllAppend | src/processing.rs:103-129 | classifying two batches in turn is classifying their concatenation |
| Processing.ClassifyAllStopsAtPanic | src/processing.rs:119 | a panic in an earlier batch is the panic of the whole stream |
| Processing.Select | src/processing.rs:47-55 | a selection is no longer than the batch; its contents are stated by `Processing.SelectHasFlagged` and `Processing.SelectPartitions` |
| Processing.SelectAppend | src/processing.rs:47-55 | routing distributes over concatenation, so relative order is kept |
| Processing.SelectPartitions | src/processing.rs:47-55 | the removed and kept selections together hold every record of the batch exactly once (as multisets) |
| Processing.SelectHasFlagged | src/processing.rs:48-54 | every record lands in the selection for its own flag |
| Processing.ProcessBatch | src/processing.rs:21-57 | an empty batch gives `(0,0)` and writes nothing; a panic leaves both writers untouched; otherwise the counts sum to the batch size, and the removed and kept writers receive exactly the flagged and unflagged records, in order |
| Processing.RouteBatch | src/processing.rs:44-56 | the serial write loop: counts equal the selection sizes and each writer receives its selection in order |
| Processing.SelectStep | src/processing.rs:47-55 | one more record extends the selection for its flag and leaves the other unchanged |
| Processing.BatchEnd | src/processing.rs:118 | a batch never exceeds the batch size, and a short batch reaches the end of the stream |
| Processing.RouteOne | src/processing.rs:48-54 | one routed record goes to the removed writer and count when flagged, and to the kept ones otherwise |
| Processing.Route | src/processing.rs:103-129 | on success the counts grow by the number of records routed |
| Processing.RouteSplit | src/processing.rs:118-123 | routing a stream in two pieces is routing it in one; a panic in the first piece stops everything |
| Processing.RouteMeaning | src/processing.rs:103-129 | per-record routing of the whole stream is the same as processing it as one batch |
| Processing.RoutePrefixMeaning | src/processing.rs:103-124 | the same holds for every prefix of the stream |
| Processing.FlushBatch | src/processing.rs:119-122 | flushing one batch is routing it, and a panic is the batch's classification panic |
| Processing.FlushFull | src/processing.rs:118-123 | flushing the pending records extends the routed prefix to the current end; a panic there is the outcome of routing the whole stream |
| Processing.FillBatches | src/processing.rs:104-124 | every flushed prefix is a whole number of full batches; at the end of the records the pending batch is the unflushed tail and shorter than the batch size; a panic is the panic of the failing full batch and of the whole stream |
| Processing.TakeRecord | src/processing.rs:107-123 | taking one record keeps the pending batch below the batch size, or flushes it once full; a panic in that flush is the panic of the whole stream |
| Processing.PanicPersists | src/processing.rs:119 | once routing has panicked, routing further records reports the same panic |
| Processing.ProcessStream | src/processing.rs:103-131 | success exactly when reading does not fail and no record panics; then the total is the number of records, it equals removed + kept, and the writers and counts are those of routing the whole stream; a panic is the panic of the first failing batch |
| Processing.FastqOutput | src/processing.rs:94-101 | a requested output is a fresh FASTQ writer; an unrequested one is a sink |
| Processing.ProcessFastq | src/processing.rs:65-132 | a zero-byte input gives `(0,0,0)` with only the kept output created; a parser-empty input gives `(0,0,0)`; a rejected input fails; otherwise the stream is routed as a whole and counted |
| Processing.BamOutput | src/processing.rs:152-159 | a requested output is a fresh BAM writer; an unrequested one is a sink |
| Processing.ProcessBam | src/processing.rs:139-186 | an unopenable input fails with both outputs discarded; otherwise the stream is routed as a whole and counted |
| Processing.SelectPair | src/processing.rs:47-55 | a two-record batch is routed record by record, in order |
| Processing.RoutingFlags | src/processing.rs:211-230 | with limit 0 and length 4 the test's first record is flagged and its second is not |
| Processing.RoutingExample | src/processing.rs:229-232 | the test batch classifies as `[true, false]`, so `r1` alone is removed and `r2` alone is kept |
| Processing.WriteOneFastq | src/io.rs:67-69 | a FASTQ writer receiving one record holds its old bytes followed by that record's entry |
| Processing.RoutingOutput | src/processing.rs:234-237 | the removed writer of the test ends up holding exactly `r1`'s entry |
| Processing.RoutingOutputHeader | src/processing.rs:238-239 | that entry opens with `@r1:ACGT` |
| Cli.Lower | src/main.rs:57 | lower-casing keeps the length of the name |
| Cli.LowerIdempotent | src/main.rs:57 | lower-casing twice is lower-casing once |
| Cli.EndsWithLower | src/main.rs:57-73 | a name ending with a suffix, lower-cased, ends with the lower-cased suffix |
| Cli.SuffixInfo | src/main.rs:79-86 | the first variant is `.` + the canonical suffix; every variant is non-empty, starts with `.` and is lower-case |
| Cli.FileTypeFromName | src/main.rs:52-76 | an error carries `Unsupported file type: ` and the lower-cased name |
| Cli.FileTypeFromNameSound | src/main.rs:59-75 | a detected type is named by one of its suffix variants; an error means no type's variant ends the name |
| Cli.SuffixesExclusive | src/main.rs:59-73 | no name ends with the suffixes of two different types, so the order of the checks does not matter |
| Cli.FileTypeFromNameExact | src/main.rs:52-76 | detection yields type t exactly when the lower-cased name ends with one of t's variants |
| Cli.TrimEndMatchesSpec | src/main.rs:99 | trimming leaves a string that no longer ends with the pattern, followed in the original by some number of copies of it |
| Cli.FirstEnding | src/main.rs:96-98 | `find` returns the first variant the prefix ends with, and none exactly when it ends with none |
| Cli.OutputBase | src/main.rs:96-100 | the base is never longer than the output prefix; `Cli.OutputBaseIsPrefix` and `Cli.OutputBaseSpec` say which part of it the base is |
| Cli.OutputBaseIsPrefix | src/main.rs:96-100 | the base is the front of the output prefix: stripping only ever removes characters from its end |
| Cli.OutputBaseSpec | src/main.rs:96-100 | with no matching variant the base is the prefix; otherwise it is the prefix stripped of one or more trailing copies of the first matching variant, and no longer ends with it |
| Cli.BuildOutputPaths | src/main.rs:91-106 | the kept path is at most the prefix plus `.suffix`, and the removed path is exactly `.removed` (8 characters) longer |
| Cli.OutputPathsShareBase | src/main.rs:96-103 | both paths are one base, the front of the output prefix, followed by `.suffix` and by `.removed.suffix` |
| Cli.OutputPathsKeepType | src/main.rs:91-106 | both output paths are detected as the same file type again |
| Cli.TrimOneCopy | src/main.rs:99 | trimming a single appended copy gives the base back |
| Cli.BareBase | src/main.rs:100-103 | a prefix that does not end with the type's last letter gets `.suffix` and `.removed.suffix` appended |
| Cli.SuffixedBase | src/main.rs:96-103 | a prefix ending with a variant gets that variant replaced by the canonical suffix |
| Cli.CheckMismatches | src/main.rs:116-118 | a limit is accepted exactly when it is at most 3 |
| Cli.AcceptedLimitFitsMatcher | src/main.rs:19 | an accepted limit is below `u32::MAX`, so the matcher's `m + 1` cannot overflow |
| Cli.FqNameExample | src/main.rs:199-202 | `reads.fq` is FASTQ |
| Cli.FastqNameExample | src/main.rs:203-206 | `reads.fastq` is FASTQ |
| Cli.FqGzNameExample | src/main.rs:207-210 | `reads.fq.gz` is gzipped FASTQ |
| Cli.FastqGzNameExample | src/main.rs:211-214 | `reads.fastq.gz` is gzipped FASTQ |
| Cli.BamNameExample | src/main.rs:215-218 | `reads.bam` is BAM |
| Cli.SamNameExample | src/main.rs:219-222 | `reads.sam` is SAM |
| Cli.UnknownSuffixExample | src/main.rs:224-225 | `reads.unknown` is an error |
| Cli.BareFastqPrefixExample | src/main.rs:230-233 | `outprefix` as FASTQ gives `outprefix.fq` and `outprefix.removed.fq` |
| Cli.FastqPrefixReplaced | src/main.rs:235-238 | `<base>.fastq` as FASTQ gives `<base>.fq` and `<base>.removed.fq` |
| Cli.FqGzPrefixKept | src/main.rs:240-244 | `<base>.fq.gz` as gzipped FASTQ gives `<base>.fq.gz` and `<base>.removed.fq.gz` |
| Cli.FastqGzPrefixReplaced | src/main.rs:246-249 | `<base>.fastq.gz` as gzipped FASTQ gives `<base>.fq.gz` and `<base>.removed.fq.gz` |
| Cli.BareBamPrefixExample | src/main.rs:251-255 | `outprefix` as BAM gives `outprefix.bam` and `outprefix.removed.bam` |
| Cli.SamPrefixKept | src/main.rs:257-260 | `<base>.sam` as SAM gives `<base>.sam` and `<base>.removed.sam` |

## Left out

- Parallelism: the rayon map and the thread pool (src/processing.rs:33-34, src/main.rs:121-123). The map is sequential. When several records of one batch panic, the model reports the leftmost; rayon may surface any of them.
- File access and foreign libraries: needletail and htslib readers, BAM header templating, file creation, gzip wrapping, `fs::metadata`. Inputs are the four FASTQ cases and two BAM cases listed above. Outputs are append-only logs.
- Write failures: every write succeeds. The `?` on `write_to` is not modelled.
- Read failures mid-stream: a stream is the records that parse plus a read-error flag, so the model cannot say how many records the failing read consumed.
- `bam::Record` internals: a BAM record is its read name, an opaque rest, and its bases as delivered by `seq().as_bytes()`.
- The CLI front end:
  - clap parsing apart from the 0..=3 bound;
  - the summary printing, percentages (floating point) and timing (src/main.rs:137-186).
- Paths: `Path::file_name`, `to_str` and `to_string_lossy`. A file name and an output prefix are plain strings.
- Cli.Lower: lower-cases ASCII letters only, while `to_lowercase` is Unicode-aware. The suffixes compared against are ASCII, but a non-ASCII letter in a file name is lower-cased differently.
- `from_ne_bytes` byte order: lanes are packed little-endian. The lane count does not depend on the order. The borrow corner case of `is_n_mask` runs from a lane to the next higher one, so on a big-endian machine it would affect the byte before the `N` instead of the byte after.
- Matcher.IsUmiInRead: scores windows with the documented per-byte rule, not the 8-byte-block `hamming_distance` that src/matcher.rs:107 and src/matcher.rs:146 call. The two differ only when the UMI or the read holds the byte 0x4F right after an `N` within one 8-byte block. On UMI = read = `NOAAAAAA` with limit 1 the program keeps the record, while the model removes it. `Swar.IsUmiInReadAsWritten` models the search as written. `Swar.AsWrittenMatcherAgrees` proves the two equal when no byte is 0x4F, and `Swar.AsWrittenMatcherMissesNThenO` exhibits the difference. `Processing.Classify` and everything after it use the corrected rule (see Findings).
- Swar.SwarHammingDistance: does not model the `u32` wrap-around of the distance sum, because it needs reads longer than 4 × 10⁹ bases.
- Release-build overflow: `max_mismatches + 1` at `u32::MAX` is modelled as a panic (the debug-build behaviour). In release builds it wraps to 0 and then divides by zero, which also panics.
- tests/integration_test.rs: it depends on data files that are not part of this model.
- Cli.FastqPrefixReplaced, Cli.SamPrefixKept, Cli.FqGzPrefixKept, Cli.FastqGzPrefixReplaced: the unit tests use the prefix `outprefix`. These lemmas are stated for any base whose last character differs from the type's final letter, which includes `outprefix`.

## Findings

| source | as written | input that shows it | evidently intended | confidence | as-written member | corrected member |
|---|---|---|---|---|---|---|
| src/matcher.rs:28-33 with src/matcher.rs:55-58 | `is_n_mask` subtracts 1 from every lane of `x ^ 0x4E4E…`; an `N` lane becomes 0 and its borrow turns a following 0x4F lane into 0x00 - 1, flagging it too. `hamming_distance` then counts that position as a mismatch | the 8-byte block `NOAAAAAA` compared with itself: the per-byte rule gives 1, the code gives 2; so with limit 1 `is_umi_in_read` misses `NOAAAAAA` in itself | a mismatch only where the bytes differ or either is `N`, as the tail loop (src/matcher.rs:70-75) and the doc comment say | not executed | Swar.SwarOvercountsAfterN, Swar.AsWrittenMatcherMissesNThenO | Matcher.HammingDistanceCountsMismatches, Matcher.IsUmiInRead |
