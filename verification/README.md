# Verified models of the runtime's algorithmic core

A Dafny project that models the self-contained algorithms of the runtime - byte-exact file writers, the
response cache, the redactor, the document and answer formatters, the label classifier, layered configuration,
online statistics and harness admission - and proves what they promise. `dafny verify dfyconfig.toml` checks
everything.

What is modelled, and the file that holds it:

- **ZIP** (`Crc32`, `CrcValues`, `Bytes`, `StoredZip`): the bit-at-a-time CRC-32 and its published values, the
  STORED-method archive writer as a class, and an independent reader of the layout in PKWARE APPNOTE.TXT
  sections 4.3.7, 4.3.12 and 4.3.16.
- **PDF** (`Document`, `Decimal`, `PdfPages`, `PdfLayout`, `PdfText`, `PdfFile`, `PdfBytes`, `PdfReader`,
  `PdfDocument`, `Rows`): flattening, pagination, escaping, content streams, objects, cross-reference table
  and trailer, and an independent reader that starts at the last `startxref` (ISO 32000-1 sections 7.3.4.2,
  7.3.8, 7.5.4 and 7.5.5).
- **Spreadsheet columns** (`Columns`): bijective base 26.
- **Response cache** (`ResponseCache`, `CacheRuns`, `CacheRecency`, `SemanticInclusion`): the LRU and TTL
  cache as a class proved against step functions, and laws of whole runs: recency and eviction, when a larger
  cache includes a smaller one, agreement with an unbounded TTL map, conservation, counters.
- **Redactor** (`Ascii`, `Utf8`, `Utf8Encoding`, `Spans`, `Choice`, `Coverage`, `Luhn`, `FileNames`,
  `DigitRuns`, `Cards`, `TokenDetectors`, `MarkerDetectors`, `DetectorPromises`, `Redactor`, `LeakyText`):
  nine scanning detectors, each proved to report exactly what it looks for, on character boundaries, the
  sort-and-greedy rebuild, and when it removes everything that was reported.
- **Markdown** (`Markdown`, `MarkdownRoundTrip`, `MarkdownWords`, `MarkdownRendering`) and **answers**
  (`CodeFence`, `Citations`, `CitationLaws`): rendering, structuring text, which documents and words come
  back, the adaptive fence with a fenced-block reader (CommonMark section 4.5), citation numbering.
- **Labels** (`Labels`, `LabelParser`, `LabelOrder`, `LabelLaws`, `Clarify`): whole-token search, vocabulary
  validation, label parsing, when declaration order matters, and the act-or-ask cascade.
- **Statistics** (`Welford`), **configuration** (`ConfigMerge`) and **harness runs** (`Admission`,
  `HarnessRuns`, `HarnessLaws`, `ComplianceRuns`).
- Shared: `Options`, `Orders`, `Text`, `WordLaws`.

Conventions. Loops and in-place updates of the source are methods with loops, proved against functions;
objects with mutable fields are classes. A byte is a number below 256 in the ZIP files, and a character below
256 in the PDF files and the redactor, whose text is the sequence of its UTF-8 bytes. Elsewhere a string is a
sequence of Unicode scalar values. `usize` is unbounded; `u16`, `u32` and `u64` fields, casts and saturating
sums are written out.

Where the code and its own words disagree the model follows the code:

- The redactor is to "never ship the secret value" (`crates/ainxt-compliance/src/lib.rs:13-16`). The rebuild
  drops every span that starts before the cursor, so a reported secret that begins inside an applied span is
  left from that span's end on. `LeakyText.LeavesSecretInClear` is a text where the default configuration does
  so; `Coverage.LeakFreeIff` says when it cannot happen, `Coverage.NothingLeaksIff` and
  `Redactor.NothingSurvivesIff` when it does not. The first byte of every reported span is always removed
  (`Redactor.SensitiveIsHit`).
- The listed extension `properties` never matches, because the extension scan stops after eight characters
  (`FileNames.PropertiesNeverMatches`); `FileNames.RecognisedIff` is the exact rule.
- The tie-break in `parse_label` is called impossible for distinct whole tokens
  (`crates/ainxt-classify/src/lib.rs:449-450`). It is not when a surface form has several words:
  `LabelOrder.OrderFreeIff` gives the exact condition, and `LabelOrder.TieMatters` a text.
- Redaction by the long-digit-run detector reaches its fixed point in one pass only for minima of at least 2
  (`DigitRuns.OnePassIff`).
- A heading is documented as one to six hashes and a space (`crates/ainxt-artifact/src/lib.rs:112-113`). The
  count is kept in one byte, which wraps in a release build: `MarkdownRoundTrip.LongHeadingReads` gives lines
  of 256 and 257 hashes, `Markdown.DocumentedHeadingIff` the exact condition.
- The archive writer casts sizes and offsets to 32 bits; `StoredZip.LargeArchiveFails` is an archive that does
  not read back for it, and `StoredZip.RoundTripIff` the exact condition below that size.

## Model

| member | source | states |
|---|---|---|
| `Crc32.Compute` | crates/ainxt-artifact/src/binary.rs:32-42 | The two nested loops leave the register that folding the data bit by bit gives, complemented. |
| `Crc32.Rounds` | crates/ainxt-artifact/src/binary.rs:36-39 | Eight rounds of mask, shift and conditional XOR are eight steps of the shift register. |
| `Crc32.RegisterIsSerial` | crates/ainxt-artifact/src/binary.rs:32-42 | The byte-wise register equals a bit-serial register fed the data least significant bit first. |
| `Crc32.ShiftInjective` | crates/ainxt-artifact/src/binary.rs:37-38 | Two registers with the same next state are equal, when the polynomial has its top bit set. |
| `Crc32.BurstDetected` | crates/ainxt-artifact/src/binary.rs:32-42 | Two inputs of one length whose differing bits lie within 32 consecutive bits never share a checksum, for every such polynomial. |
| `Crc32.FourByteDamageDetected` | crates/ainxt-artifact/src/binary.rs:32-42 | Replacing up to four consecutive bytes by others always changes the checksum. |
| `Crc32.CrcDetectsBursts` | crates/ainxt-artifact/src/binary.rs:32-42 | The same burst guarantee for the IEEE polynomial that the writer uses, on the checksum as a number. |
| `Crc32.CrcDetectsFourBytes` | crates/ainxt-artifact/src/binary.rs:32-42 | The four-byte guarantee for the IEEE polynomial, on the checksum as a number. |
| `CrcValues.CheckValue` | crates/ainxt-artifact/src/binary.rs:30-42 | The checksum of the digits 1 to 9 is 0xCBF43926, the check value of CRC-32. |
| `CrcValues.EmptyCrc` | crates/ainxt-artifact/src/binary.rs:30-42 | The checksum of no bytes is zero. |
| `CrcValues.ResidueIs` | crates/ainxt-artifact/src/binary.rs:30-42 | Data followed by its checksum leaves one and the same residue in a register started at all ones. |
| `CrcValues.ResidueIff` | crates/ainxt-artifact/src/binary.rs:30-42 | No other four bytes after the data leave that residue: start, polynomial and complement are fixed. |
| `Bytes.LeRoundTrip` | crates/ainxt-artifact/src/binary.rs:87-97 | A little-endian field reads back every value that fits its width. |
| `Bytes.Le32Truncates` | crates/ainxt-artifact/src/binary.rs:84-131 | Casting to `u32` before `to_le_bytes` drops exactly the multiples of 2^32. |
| `StoredZip.Writer.Add` | crates/ainxt-artifact/src/binary.rs:69-78 | Appends one entry with its CRC; nothing else changes. |
| `StoredZip.Writer.Finish` | crates/ainxt-artifact/src/binary.rs:82-134 | The output is local headers with data, then the central directory, then the end record; each stored offset is where that local header was written, as a 32-bit cast. What fits its fields reads back from the output. |
| `StoredZip.RoundTrip` | crates/ainxt-artifact/src/binary.rs:69-134 | A reader that goes end record, central directory, local headers, and checks every CRC, gets back exactly the names and data in order. |
| `StoredZip.RoundTripIff` | crates/ainxt-artifact/src/binary.rs:69-134 | While the directory begins below 2^32: an archive reads back exactly when entry count and name lengths fit 16 bits and the directory size fits 32. |
| `StoredZip.RoundTripNeedsLimits` | crates/ainxt-artifact/src/binary.rs:69-134 | At any archive size, what reads back has an entry count and name lengths below 2^16 and data below 2^32 bytes each. |
| `StoredZip.RoundTripNeedsSignature` | crates/ainxt-artifact/src/binary.rs:108-134 | At any archive size, what reads back has a central directory record at the truncated start of its directory. |
| `StoredZip.LargeArchiveFails` | crates/ainxt-artifact/src/binary.rs:84-131 | An archive whose local part is 2^32 bytes long does not read back. |
| `StoredZip.LargeArchiveExists` | crates/ainxt-artifact/src/binary.rs:84-131 | One entry without a name and with 2^32 - 30 zero bytes is such an archive. |
| `StoredZip.WrittenReadsBack` | crates/ainxt-artifact/src/binary.rs:69-134 | The round trip with the checksum of `Crc32` itself. |
| `StoredZip.OffsetsLand` | crates/ainxt-artifact/src/binary.rs:84-106 | The local header, name and data of an entry stand where they were written, and the stored offset is that position iff it is below 2^32. |
| `StoredZip.ArchiveSize` | crates/ainxt-artifact/src/binary.rs:82-134 | The sizes of the local part, the directory and the whole archive in closed form. |
| `Decimal.ValueOfDec` | crates/ainxt-artifact/src/binary.rs:352-412 | Reading a printed number gives the number. |
| `Decimal.DecWidth` | crates/ainxt-artifact/src/binary.rs:403 | A number prints in at most k digits exactly when it is below 10^k. |
| `Decimal.PaddedRoundTrip` | crates/ainxt-artifact/src/binary.rs:403 | `{:010}` loses no value, and is exactly ten digits iff the number is below 10^10. |
| `PdfPages.Flatten` | crates/ainxt-artifact/src/binary.rs:160-223 | The flattening loop gives the title line and each block's lines and breaks, in order. |
| `PdfPages.Paginate` | crates/ainxt-artifact/src/binary.rs:328-343 | The paginating loop gives, for each run between page breaks, that run cut every 48 lines; an all-empty result becomes one blank page. |
| `PdfPages.PagesHold` | crates/ainxt-artifact/src/binary.rs:328-343 | There is always a page, no page exceeds 48 lines, and the pages concatenated are the flattened lines in order. |
| `PdfLayout.FlattenLays` | crates/ainxt-artifact/src/binary.rs:160-223 | The title, then every block in order: a heading or paragraph is one line, a list one line per item behind its bullet or number, a table one line for the header and each row that splits at its tabs into the cells, code its lines, a page break a break. |
| `PdfLayout.LinesAreLines` | crates/ainxt-artifact/src/binary.rs:213-221 | The lines of code with their endings are the code. |
| `PdfLayout.LinesUnique` | crates/ainxt-artifact/src/binary.rs:213-221 | No other sequence of lines is. |
| `Rows.RowReadsIff` | crates/ainxt-artifact/src/binary.rs:198-212 | A joined row splits into its cells iff it has one and none holds the separator. |
| `PdfLayout.RunFills` | crates/ainxt-artifact/src/binary.rs:328-343 | Without page breaks the lines fill pages of 48, and only the last may be shorter. |
| `PdfLayout.BreakEndsPage` | crates/ainxt-artifact/src/binary.rs:328-343 | Text before and after a page break is paginated apart. |
| `PdfLayout.BreakLeavesBlank` | crates/ainxt-artifact/src/binary.rs:328-343 | A break before or after all text leaves a blank page. |
| `PdfText.Escape` | crates/ainxt-artifact/src/binary.rs:257-269 | The escaping loop computes the escaped string. |
| `PdfText.LiteralRoundTrip` | crates/ainxt-artifact/src/binary.rs:240-269 | A full literal-string reader (nesting, escapes, octal, line ends) gets the text back from the escaped form, with unrepresentable characters as spaces, and stops at the closing parenthesis. |
| `PdfText.ContentStream` | crates/ainxt-artifact/src/binary.rs:294-310 | The stream-building loop emits the prologue, the operators of every line and the closing operator. |
| `PdfText.ContentRoundTrip` | crates/ainxt-artifact/src/binary.rs:294-310 | Interpreting a page's operators gives each line's font size and visible text, in order. |
| `PdfFile.BuildObjects` | crates/ainxt-artifact/src/binary.rs:345-386 | The objects are numbered 1 to the font object without gaps, each with the right body, so sorting them changes nothing. |
| `PdfFile.WriteObjects` | crates/ainxt-artifact/src/binary.rs:389-398 | The bytes written are the header and the objects, and `offsets[k]` is where object k starts. |
| `PdfFile.WriteTable` | crates/ainxt-artifact/src/binary.rs:400-404 | One cross-reference line per object, in object order. |
| `PdfFile.RenderBytes` | crates/ainxt-artifact/src/binary.rs:326-414 | The whole of the method: flatten, paginate, build, serialize, table, trailer. |
| `PdfBytes.RenderIsBytes` | crates/ainxt-artifact/src/binary.rs:240-414 | Every character of a rendered file is below 256, so `Length`, offsets and `startxref` count bytes. |
| `PdfReader.OffsetLands` | crates/ainxt-artifact/src/binary.rs:392-404 | Every table offset points at its own `n 0 obj` and that object's body. |
| `PdfReader.EntryReads` | crates/ainxt-artifact/src/binary.rs:401-404 | A table line is 20 bytes and reads back its offset iff the offset is below 10^10; otherwise a reader of 20-byte lines rejects it. |
| `PdfReader.XrefReads` | crates/ainxt-artifact/src/binary.rs:399-412 | The table and trailer read back all offsets and the catalog number iff every offset fits ten digits; else the reader gets nothing. |
| `PdfReader.XrefLands` | crates/ainxt-artifact/src/binary.rs:399-412 | The number after `startxref` points at the table. |
| `PdfReader.StreamReads` | crates/ainxt-artifact/src/binary.rs:374-378 | `Length` is the true stream length: that many bytes, then `endstream`, and the stream reads back its page. |
| `PdfReader.TreeReads` | crates/ainxt-artifact/src/binary.rs:350-384 | From the catalog through the page tree a reader reaches every page once, in order. |
| `PdfReader.RenderRoundTrip` | crates/ainxt-artifact/src/binary.rs:240-414 | Reading a rendered document from its last `startxref` gives the flattened lines page by page iff the last object starts below byte 10^10; else nothing. |
| `PdfDocument.RenderShows` | crates/ainxt-artifact/src/binary.rs:160-414 | What a reader of a rendered file sees, page after page, is the title and then each block of the document: its text at 16 or 12 points with printable ASCII and Latin-1 kept, list markers, rows with a space between cells, code lines. |
| `PdfDocument.VisibleIsDisplayed` | crates/ainxt-artifact/src/binary.rs:240-269 | Printable ASCII and U+00A0 to U+00FF show as they are, everything else as a space. |
| `Columns.ColLetter` | crates/ainxt-artifact/src/binary.rs:519-531 | The push-and-reverse loop computes the column name. |
| `Columns.IndexOfName` | crates/ainxt-artifact/src/binary.rs:519-531 | Different columns have different names: the index can be read back. |
| `Columns.NameOfIndex` | crates/ainxt-artifact/src/binary.rs:519-531 | Every non-empty upper-case word names a column. |
| `ResponseCache.Cache.Put` | crates/ainxt-cache/src/lib.rs:160-175 | Normalizes the key, stores the entry and evicts down to capacity; a capacity of zero stores nothing. |
| `ResponseCache.Cache.GetExact` | crates/ainxt-cache/src/lib.rs:178-199 | Returns a live entry and refreshes only its recency; drops an expired one; counts the hit or miss. |
| `ResponseCache.Cache.GetSemantic` | crates/ainxt-cache/src/lib.rs:204-236 | Sweeps, then returns the nearest entry at or above the threshold and refreshes only that entry. |
| `ResponseCache.Cache.SweepExpired` | crates/ainxt-cache/src/lib.rs:239-250 | Removes exactly the expired entries and counts them. |
| `ResponseCache.Cache.EvictToCapacity` | crates/ainxt-cache/src/lib.rs:253-269 | Evicts least recently used entries, ties by key, until the size is within capacity. |
| `ResponseCache.Cache.FindVictim` | crates/ainxt-cache/src/lib.rs:255-263 | The victim is the entry of least recency and, among those, least key. |
| `ResponseCache.Cache.GetTiered` | crates/ainxt-cache/src/lib.rs:484-505 | Exact lookup first, semantic search only on a miss and only with an embedding. |
| `ResponseCache.VictimIs` | crates/ainxt-cache/src/lib.rs:255-263 | The least-recency-then-key entry is unique, so any search that finds such an entry finds the victim. |
| `ResponseCache.NearestIs` | crates/ainxt-cache/src/lib.rs:204-236 | The best-scoring entry, ties by key, is unique. |
| `CacheRuns.WithinCapacity` | crates/ainxt-cache/src/lib.rs:160-270 | After every run of operations the size is within capacity. |
| `CacheRuns.LargerCacheIncludes` | crates/ainxt-cache/src/lib.rs:160-199 | LRU inclusion: over any run without semantic searches, at arbitrary ticks, the larger cache holds every entry of the smaller one unchanged, and the size gap stays within the capacity gap. |
| `CacheRuns.SearchKeepsInclusionIff` | crates/ainxt-cache/src/lib.rs:204-236 | A semantic search keeps the inclusion iff of the entries the smaller cache keeps only those already used at that tick are found by one cache and not the other. |
| `CacheRuns.AgreeIff` | crates/ainxt-cache/src/lib.rs:204-236 | With one threshold that means: the smaller cache finds nothing, or the same entry as the larger, or one already used at that tick. |
| `CacheRuns.InclusionIff` | crates/ainxt-cache/src/lib.rs:160-250 | Over any run of all four operations the inclusion holds after every step iff the two caches agree at every semantic search. |
| `CacheRuns.HitAgreesWithTtlMap` | crates/ainxt-cache/src/lib.rs:154-199 | An exact hit returns the value of the latest put under the same normalized key, not past its life. |
| `CacheRuns.LookupIsTtlMap` | crates/ainxt-cache/src/lib.rs:154-199 | With nondecreasing ticks and no more distinct keys than capacity, every lookup equals the unbounded TTL map. |
| `CacheRuns.SemanticHitAgreesWithTtlMap` | crates/ainxt-cache/src/lib.rs:204-236 | A semantic hit is the latest put of some key, unexpired; the reported similarity is that of its embedding, meets the threshold and is exceeded by no other live entry. |
| `CacheRuns.TieredIsRun` | crates/ainxt-cache/src/lib.rs:484-505 | A tiered lookup is an exact lookup, followed by a semantic search exactly on a miss with a query: the run laws cover it. |
| `CacheRuns.TieredHitAgreesWithTtlMap` | crates/ainxt-cache/src/lib.rs:484-505 | A tiered hit is the unbounded TTL map's answer, or on an exact miss an unexpired latest put whose embedding has the reported similarity. |
| `CacheRecency.LastUsedIs` | crates/ainxt-cache/src/lib.rs:160-236 | After every run the recency of each live entry is the tick of its last put, answered exact lookup or semantic hit. |
| `CacheRecency.PutEvictsLeastRecent` | crates/ainxt-cache/src/lib.rs:160-175 | A put keeps every key but one when there is one too many, and then exactly the one whose last use is earliest leaves, ties to the lesser key. |
| `CacheRecency.LeavesIff` | crates/ainxt-cache/src/lib.rs:178-250 | Apart from puts exactly the expired entries leave, at an exact lookup only the one looked up. |
| `CacheRecency.FoundIff` | crates/ainxt-cache/src/lib.rs:204-236 | A search finds a key iff its entry is live, has an embedding, reaches the threshold and no other such entry is more similar, or as similar with a lesser key. |
| `CacheRecency.MissIff` | crates/ainxt-cache/src/lib.rs:204-236 | A search finds nothing iff no live entry reaches the threshold. |
| `CacheRecency.StatsAre` | crates/ainxt-cache/src/lib.rs:160-270 | After every run the six counters count answered and unanswered lookups, searches that found and did not, and entries that left at puts and otherwise. |
| `WordLaws.NormalizeKeepsWords` | crates/ainxt-cache/src/lib.rs:98-105 | A normalized key is the lower-casing of a text with the words of the key. |
| `WordLaws.NormalizeIff` | crates/ainxt-cache/src/lib.rs:98-105 | Two keys share an entry iff they have the same words, as far as lower-casing tells texts apart. |
| `SemanticInclusion.SearchBreaksInclusion` | crates/ainxt-cache/src/lib.rs:204-236 | A run where they do not agree: after the same five operations a cache of two entries answers a key that a cache of three does not. |
| `CacheRuns.EntriesConserved` | crates/ainxt-cache/src/lib.rs:160-270 | Puts of absent keys = live entries + evictions + expirations, in every run with non-zero capacity. |
| `CacheRuns.PartitionsIsolated` | crates/ainxt-cache/src/lib.rs:314-380 | Each partition is exactly the cache its own operations build. |
| `Utf8.SequenceEnds` | crates/ainxt-compliance/src/lib.rs:252-277 | In valid UTF-8 a sequence that starts inside the text ends at a character boundary inside it. |
| `Utf8.SliceValid` | crates/ainxt-compliance/src/lib.rs:252-277 | A slice between character boundaries of valid UTF-8 is valid UTF-8. |
| `Utf8Encoding.ValidIff` | crates/ainxt-compliance/src/lib.rs:252-277 | Valid UTF-8 is exactly what encoding Unicode scalar values gives. |
| `Spans.ApplySpans` | crates/ainxt-compliance/src/lib.rs:254-277 | The rebuild equals the specified one and every slice it takes is legal, given spans on character boundaries. |
| `Spans.SortSorts` | crates/ainxt-compliance/src/lib.rs:259 | The sort orders by start, then longest first, and keeps the spans. |
| `Spans.AppliedIsChain` | crates/ainxt-compliance/src/lib.rs:263-275 | Applied spans are in range, in order, pairwise disjoint and among the detected ones. |
| `Spans.DetectedSpansAreHit` | crates/ainxt-compliance/src/lib.rs:254-277 | The first byte of every in-range detected span is covered by an applied one, so the choice is maximal. |
| `Spans.KeptByte` | crates/ainxt-compliance/src/lib.rs:270-275 | Every byte outside the applied spans appears unchanged at its displaced position. |
| `Spans.KeptOrder` | crates/ainxt-compliance/src/lib.rs:270-275 | Kept bytes stay in order. |
| `Spans.LabelStands` | crates/ainxt-compliance/src/lib.rs:270-275 | At the displaced place of each applied span stands its label. |
| `Spans.RebuiltLength` | crates/ainxt-compliance/src/lib.rs:270-275 | The output length is input minus covered bytes plus label bytes. |
| `Spans.RedactedValid` | crates/ainxt-compliance/src/lib.rs:254-277 | Redacting valid UTF-8 leaves valid UTF-8. |
| `Choice.ChosenIsGreedy` | crates/ainxt-compliance/src/lib.rs:252-275 | The applied spans are, from each cursor on, the earliest and then longest detected span. |
| `Choice.GreedyUnique` | crates/ainxt-compliance/src/lib.rs:252-275 | That law fixes every applied range from the set of detected spans alone, whatever order they were pushed in. |
| `Choice.ChosenAreFirst` | crates/ainxt-compliance/src/lib.rs:259-275 | Of several spans over one range, the one pushed first gives the label. |
| `Choice.FindsDecide` | crates/ainxt-compliance/src/lib.rs:115-150 | The redacted text depends only on what each detector finds, not on how often or in which order it pushes. |
| `Coverage.UncrossedNeverLeak` | crates/ainxt-compliance/src/lib.rs:252-277 | If no detected span begins inside another and ends after it, every byte of every in-range detected span is removed. |
| `Coverage.CrossingLeaks` | crates/ainxt-compliance/src/lib.rs:252-277 | Of two such spans only the first is applied, and the byte after it stays in clear. |
| `Coverage.LeakFreeIff` | crates/ainxt-compliance/src/lib.rs:252-277 | Every selection of the detected spans is removed completely iff no two of them cross. |
| `Coverage.NothingLeaksIff` | crates/ainxt-compliance/src/lib.rs:252-277 | For one text: nothing is left of any detected span iff every applied span that ends inside a detected one is followed at once by another. |
| `Luhn.Check` | crates/ainxt-compliance/src/lib.rs:287-307 | The loop accepts exactly 13 to 19 digits whose weighted sum is a multiple of ten. |
| `Luhn.SingleDigitDetected` | crates/ainxt-compliance/src/lib.rs:287-307 | Changing any one digit of a valid number makes it invalid (ISO/IEC 7812-1 Annex B). |
| `Luhn.AdjacentSwapDetected` | crates/ainxt-artifact/src/lib.rs:339-356 | Swapping two adjacent digits keeps a number valid iff they are equal or are 0 and 9. |
| `Luhn.CheckDigitUnique` | crates/ainxt-compliance/src/lib.rs:287-307 | A payload has at most one check digit. |
| `Luhn.CompletedIff` | crates/ainxt-compliance/src/lib.rs:287-307 | A payload of 12 to 18 digits has exactly one check digit. |
| `Cards.DetectCards` | crates/ainxt-compliance/src/lib.rs:311-354 | Reports exactly the maximal digit groups with single separators that are valid card numbers and not filenames or path parts. |
| `Cards.CardOnBoundaries` | crates/ainxt-compliance/src/lib.rs:311-354 | A card span is non-empty and lies between character boundaries. |
| `Cards.GroupDigitsAre` | crates/ainxt-compliance/src/lib.rs:311-354 | The digits checked are those of the group, in order and no others. |
| `DetectorPromises.CardIsFound` | crates/ainxt-compliance/src/lib.rs:311-354 | Digits with single spaces or hyphens between them that pass the check are found with all their digits, wherever they stand, unless they continue a number, a path or a filename. |
| `DetectorPromises.PrintedCardIsFound` | crates/ainxt-compliance/src/lib.rs:5-8 | 4111 1111 1111 1111 is found. |
| `FileNames.IsFollowedByExtension` | crates/ainxt-compliance/src/lib.rs:1029-1057 | Decides whether a known extension follows. |
| `FileNames.IsInsideFilename` | crates/ainxt-compliance/src/lib.rs:391-405 | Decides whether the name a position stands in ends in a known extension. |
| `FileNames.PropertiesNeverMatches` | crates/ainxt-compliance/src/lib.rs:911-1057 | The listed extension `properties` is never recognised, because the scan stops after eight characters. |
| `FileNames.RecognisedIff` | crates/ainxt-compliance/src/lib.rs:911-1057 | A listed extension, at the end or before a character that is no letter or digit, is recognised iff it has at most eight characters. |
| `DigitRuns.DetectLongDigitRuns` | crates/ainxt-compliance/src/lib.rs:357-388 | The scanning loop pushes the specified spans. |
| `DigitRuns.ExemptSimplified` | crates/ainxt-compliance/src/lib.rs:370-417 | Three of the four exemptions are one: the name after the run leads to an extension. |
| `DigitRuns.RunSpansIff` | crates/ainxt-compliance/src/lib.rs:357-388 | A span is reported iff it is a maximal digit run, long enough and not exempt. |
| `DigitRuns.RedactedIsMasked` | crates/ainxt-compliance/src/lib.rs:254-388 | Detecting and rebuilding is a left-to-right masking of the text, one span per masked run. |
| `DigitRuns.OnePassIsEnough` | crates/ainxt-compliance/src/lib.rs:254-417 | With only this detector and a minimum of 2 or more, redacting redacted text finds nothing. |
| `DigitRuns.OnePassIff` | crates/ainxt-compliance/src/lib.rs:254-417 | One pass suffices for every text iff the minimum is at least 2. |
| `DigitRuns.SmallMinimumNeedsMore` | crates/ainxt-compliance/src/lib.rs:254-417 | The text `1.7z` shows why a smaller minimum fails. |
| `TokenDetectors.CheckCredential` | crates/ainxt-compliance/src/lib.rs:601-648 | The class-counting loop accepts tokens of six or more bytes with three of four character classes. |
| `TokenDetectors.CheckContext` | crates/ainxt-compliance/src/lib.rs:653-695 | The word-walking loop finds a credential root at a word start in the window, and gives up when the window splits a character. |
| `TokenDetectors.DetectCredentialShaped` | crates/ainxt-compliance/src/lib.rs:701-748 | Reports exactly the credential-shaped tokens near a credential word that are not filenames or path parts. |
| `TokenDetectors.DetectHighEntropy` | crates/ainxt-compliance/src/lib.rs:1069-1115 | Reports exactly the long tokens of two character classes that pass the entropy test and are not filenames or path parts. |
| `TokenDetectors.DetectPrefixed` | crates/ainxt-compliance/src/lib.rs:779-816 | Reports exactly the documented-prefix keys with enough characters after the prefix and no key character before it. |
| `TokenDetectors.PrefixedOnBoundaries` | crates/ainxt-compliance/src/lib.rs:779-816 | A prefixed-key span lies between character boundaries. |
| `TokenDetectors.DetectEmails` | crates/ainxt-compliance/src/lib.rs:859-909 | Reports exactly the addresses around an at sign that meet the local-part and top-level-domain rules. |
| `TokenDetectors.EmailOnBoundaries` | crates/ainxt-compliance/src/lib.rs:859-909 | An address span lies between character boundaries. |
| `DetectorPromises.KeyIsFound` | crates/ainxt-compliance/src/lib.rs:779-816 | Every documented prefix with enough key characters after it is found, wherever it starts a token. |
| `DetectorPromises.EmailIsFound` | crates/ainxt-compliance/src/lib.rs:859-909 | An address with any local part, any number of domain labels and a top-level domain of two or more letters is found whole. |
| `MarkerDetectors.DetectMarkedSecrets` | crates/ainxt-compliance/src/lib.rs:449-586 | Reports exactly the values after a marker word and a separator. |
| `MarkerDetectors.ReadValue` | crates/ainxt-compliance/src/lib.rs:490-580 | The scan from a marker to its value takes only legal slices and finds the specified value. |
| `MarkerDetectors.MarkedOnBoundaries` | crates/ainxt-compliance/src/lib.rs:449-586 | A marked value lies between character boundaries, also after the three-byte arrow. |
| `MarkerDetectors.DetectBearer` | crates/ainxt-compliance/src/lib.rs:751-775 | Reports exactly the tokens after `bearer `, in any letter case. |
| `MarkerDetectors.DetectCvv` | crates/ainxt-compliance/src/lib.rs:820-856 | Reports exactly the groups of three or four digits after a verification-value marker. |
| `MarkerDetectors.CvvOnBoundaries` | crates/ainxt-compliance/src/lib.rs:820-856 | Such a group lies between character boundaries. |
| `DetectorPromises.AssignedSecretIsFound` | crates/ainxt-compliance/src/lib.rs:449-586 | What is assigned to any marker, in any letter case and with blanks around the sign, is found up to its delimiter. |
| `DetectorPromises.QuotedSecretIsFound` | crates/ainxt-compliance/src/lib.rs:449-586 | A quoted value is found up to its closing quote. |
| `DetectorPromises.StatedSecretIsFound` | crates/ainxt-compliance/src/lib.rs:449-586 | A value of some complexity that a sentence or an arrow states after a marker is found. |
| `DetectorPromises.BearerIsFound` | crates/ainxt-compliance/src/lib.rs:751-775 | The token after the scheme word, in any letter case, is found. |
| `DetectorPromises.CvvIsFound` | crates/ainxt-compliance/src/lib.rs:820-856 | Three or four digits after a verification-value marker are found. |
| `Redactor.Redact` | crates/ainxt-compliance/src/lib.rs:115-150 | On all valid UTF-8: runs the nine detectors in order, each finding exactly what it looks for if enabled, rebuilds once, and returns valid UTF-8. |
| `Redactor.SensitiveIsLegal` | crates/ainxt-compliance/src/lib.rs:311-1115 | Whatever any detector looks for is non-empty, has that detector's label and lies between character boundaries. |
| `Redactor.AllLegal` | crates/ainxt-compliance/src/lib.rs:115-150 | Hence every slice of the rebuild is legal. |
| `Redactor.RedactionUnique` | crates/ainxt-compliance/src/lib.rs:115-150 | Text and configuration determine the redacted text and the count. |
| `Redactor.SensitiveIsHit` | crates/ainxt-compliance/src/lib.rs:115-150 | Nothing an enabled detector looks for keeps its first byte. |
| `Redactor.NothingSurvives` | crates/ainxt-compliance/src/lib.rs:115-150 | No byte is left of a reported span that no reported span crosses into. |
| `Redactor.NothingSurvivesIff` | crates/ainxt-compliance/src/lib.rs:115-150 | No byte is left of any reported span iff every applied span that ends inside a reported one is continued by another. |
| `LeakyText.LeavesSecretInClear` | crates/ainxt-compliance/src/lib.rs:72-92 | With the default configuration, in `pass aB3$xy/Kq9ZtR2mVb7LsW4nXc8QpD1fGh6JkE5u` one label replaces the credential-shaped token and 33 of the 35 bytes of the reported high-entropy token stay in clear. |
| `Redactor.CleanTextKept` | crates/ainxt-compliance/src/lib.rs:115-150 | The count is zero iff no enabled detector finds anything, and then the text is unchanged. |
| `Markdown.Render` | crates/ainxt-artifact/src/lib.rs:226-268 | The rendering loop emits each block's Markdown and trims the end. |
| `Markdown.FromText` | crates/ainxt-artifact/src/lib.rs:121-184 | The structuring loop gives the specified block for each non-blank paragraph. |
| `Markdown.ReadHeading` | crates/ainxt-artifact/src/lib.rs:136-152 | The hash-counting loop reads the level modulo 256 and the trimmed text, or no heading. |
| `Markdown.DocumentedHeadingIff` | crates/ainxt-artifact/src/lib.rs:112-152 | The heading read is the documented one, of one to six hashes and a space, unless there are 256 or more hashes whose count modulo 256 is at most 6 and a space follows. |
| `MarkdownRoundTrip.LongHeadingReads` | crates/ainxt-artifact/src/lib.rs:136-152 | 257 hashes and a space make a heading of level 1, 256 one of level 0. |
| `MarkdownRoundTrip.SplitOfJoin` | crates/ainxt-artifact/src/lib.rs:123 | Splitting at blank lines undoes joining with blank lines. |
| `MarkdownRoundTrip.BlockOfIsSimple` | crates/ainxt-artifact/src/lib.rs:124-183 | Whatever a paragraph becomes is a heading of level at most 6 or a paragraph of one trimmed line, or a non-empty list of one-line items that do not end in white space. |
| `MarkdownRoundTrip.BlockReads` | crates/ainxt-artifact/src/lib.rs:121-268 | The text of such a block reads back as that block iff it is neither a heading of level 0 nor a paragraph that opens like a heading or list item. |
| `MarkdownRoundTrip.RenderedIs` | crates/ainxt-artifact/src/lib.rs:226-268 | A title-less document of such blocks renders to its blocks' texts with blank lines between. |
| `MarkdownRoundTrip.PartsSurvive` | crates/ainxt-artifact/src/lib.rs:121-184 | Text before the blocks takes no block away when it is structured with them, and adds one if it begins with a hash. |
| `MarkdownRoundTrip.RoundTripIff` | crates/ainxt-artifact/src/lib.rs:121-268 | For every document: structuring its rendered text gives it back iff it has no title and each block is a heading of level 1 to 6, a paragraph of one trimmed line that does not open like another block, or a non-empty list of one-line items that do not end in white space. |
| `MarkdownRoundTrip.TitledIff` | crates/ainxt-artifact/src/lib.rs:121-268 | A titled document comes back with its title as an additional first heading iff the title is one trimmed line and each block is of that kind. |
| `MarkdownWords.BlockHolds` | crates/ainxt-artifact/src/lib.rs:121-184 | A paragraph is dropped iff it has no words, and otherwise becomes a block that holds all its words in order, behind one mark per line for headings and lists. |
| `MarkdownWords.StructuredHolds` | crates/ainxt-artifact/src/lib.rs:121-184 | Structuring any text keeps its words, block by block and in order, less the marks. |
| `MarkdownRendering.RenderedHolds` | crates/ainxt-artifact/src/lib.rs:226-268 | The text rendered from any document has the words of the title and of every block, tables and code included, in order, and no others but their marks. |
| `MarkdownRendering.RowReads` | crates/ainxt-artifact/src/lib.rs:249-259 | A table row splits at its bars into its cells iff it has one and no cell holds a bar. |
| `MarkdownRendering.TableReads` | crates/ainxt-artifact/src/lib.rs:249-259 | A rendered table is a header row, a rule with one part per column and its rows, a line each. |
| `MarkdownRendering.CodeReadsIff` | crates/ainxt-artifact/src/lib.rs:260-262 | A rendered code block reads back iff no line of the code closes a fence of three backticks. |
| `CodeFence.FenceFor` | crates/ainxt-answer/src/lib.rs:573-586 | The run-counting loop gives the specified fence. |
| `CodeFence.LongestRunIs` | crates/ainxt-answer/src/lib.rs:573-586 | The text has a run of k backticks iff k is at most the computed longest run. |
| `CodeFence.FenceIsShortest` | crates/ainxt-answer/src/lib.rs:573-586 | The fence is the shortest of three or more backticks that does not occur in the source. |
| `CodeFence.Sanitize` | crates/ainxt-answer/src/lib.rs:559-591 | The tag is one line, has no backtick, and no white space at its ends. |
| `CodeFence.SanitizeKeeps` | crates/ainxt-answer/src/lib.rs:589-591 | A tag that is already fit is kept. |
| `CodeFence.SanitizeLoses` | crates/ainxt-answer/src/lib.rs:559-591 | Whatever the tag, only backticks and white space are lost of it. |
| `CodeFence.RenderCode` | crates/ainxt-answer/src/lib.rs:503-514 | The `Code` arm emits the fenced block. |
| `CodeFence.CodeRoundTrip` | crates/ainxt-answer/src/lib.rs:503-591 | For every tag and source, a fenced-block reader (CommonMark section 4.5) of the rendered block, whatever follows it, gets the sanitized tag and the source verbatim. |
| `CodeFence.FencingReadsIff` | crates/ainxt-answer/src/lib.rs:503-591 | A block fenced with any three or more backticks reads back iff no line of its source is a closing fence of that length. |
| `CodeFence.ShorterFenceBreaks` | crates/ainxt-answer/src/lib.rs:573-586 | Every shorter admissible fence occurs in the source as a run, and a source that is such a run alone does not read back inside it. |
| `Citations.TruncateLead` | crates/ainxt-answer/src/lib.rs:302-320 | The lead never exceeds its bound, is cut only when longer, and then ends in an ellipsis after a prefix of itself. |
| `Citations.Compose` | crates/ainxt-answer/src/lib.rs:230-296 | The composing loops give the specified composition. |
| `Citations.ReferencesAreRight` | crates/ainxt-answer/src/lib.rs:248-278 | References are numbered 1..n without gaps, one per key cited in a kept section and present in the pool, in first-appearance order, each with the pool's first source of that key. |
| `Citations.MarkersIdentify` | crates/ainxt-answer/src/lib.rs:365-488 | A cited key shows `[?]` iff it is not in the pool; two keys in the pool show the same marker iff they are equal. |
| `Citations.PoolIsAccountedFor` | crates/ainxt-answer/src/lib.rs:248-287 | A pool key cited in a kept section is not warned of, and the first source with it is numbered and no different one; an uncited key is warned of once for each source that has it. |
| `Citations.DanglingWarnedOnce` | crates/ainxt-answer/src/lib.rs:265-276 | A dangling key is warned of exactly once, a pool key never. |
| `CitationLaws.SectionsKept` | crates/ainxt-answer/src/lib.rs:230-246 | The sections are the first 1, 4 or 12 of the answer, in order and unchanged. |
| `CitationLaws.LeadKept` | crates/ainxt-answer/src/lib.rs:230-236 | The lead is kept if it has at most 160, 400 or 800 characters, and else cut to that many with an ellipsis last. |
| `CitationLaws.CutsWarned` | crates/ainxt-answer/src/lib.rs:230-246 | What was cut, and how much, is warned of once, and nothing else is. |
| `CitationLaws.CiteKeysInOrder` | crates/ainxt-answer/src/lib.rs:252-263 | The keys that are numbered are those of all citations of the kept sections, in reading order. |
| `Labels.FindWholeToken` | crates/ainxt-classify/src/lib.rs:104-130 | The search loop returns the least position where the needle stands between non-word neighbours, or none. |
| `Labels.FirstToken` | crates/ainxt-classify/src/lib.rs:104-130 | That position is a whole token and nothing before it is. |
| `Labels.NewLabelSet` | crates/ainxt-classify/src/lib.rs:238-266 | Accepts iff there is a label and no trimmed surface form is empty or repeats an earlier one but for case; else reports the first fault. |
| `LabelParser.AcceptedIsVocabulary` | crates/ainxt-classify/src/lib.rs:238-266 | What is accepted has non-empty surface forms that no two labels share. |
| `LabelParser.ParseLabel` | crates/ainxt-classify/src/lib.rs:375-474 | The fast path, the hit loop and the minimum compute the specified parse. |
| `LabelParser.PlaceIs` | crates/ainxt-classify/src/lib.rs:410-435 | A label's place is the least position of any of its surface forms, and is by alias iff its canonical form is not there. |
| `LabelParser.FastIs` | crates/ainxt-classify/src/lib.rs:375-402 | The fast path answers iff the stripped output is a surface form. |
| `LabelParser.SlowIs` | crates/ainxt-classify/src/lib.rs:404-474 | The slow path answers iff some label is present, takes the earliest (ties by declaration), and is ambiguous iff two or more are present. |
| `LabelOrder.OrderDoesNotMatter` | crates/ainxt-classify/src/lib.rs:375-474 | Where no surface form of one label is followed by a word boundary inside one of another, the result does not depend on declaration order. |
| `LabelOrder.SingleWordsAreTieFree` | crates/ainxt-classify/src/lib.rs:375-474 | Vocabularies of single-word surface forms are such vocabularies. |
| `LabelOrder.TieMatters` | crates/ainxt-classify/src/lib.rs:449-455 | Two labels that may tie have a text that parses to either of them, whichever is declared first. |
| `LabelOrder.OrderFreeIff` | crates/ainxt-classify/src/lib.rs:375-474 | Declaration order never matters iff no two labels can tie. |
| `LabelLaws.StripIs` | crates/ainxt-classify/src/lib.rs:375-380 | What is stripped off both ends of the output has no word character, and what is left begins and ends with one. |
| `LabelLaws.ParseReports` | crates/ainxt-classify/src/lib.rs:375-474 | The label, confidence, alias flag and ambiguity of every parse: 1 or 0.9 for a whole output, 0.75 or 0.6 for the earliest label inside it, times 0.6 when others stand there too; nothing iff no label does. |
| `Clarify.ClassifyConstrained` | crates/ainxt-classify/src/lib.rs:693-736 | The bounded loop decides by the first readable reply; after the budget it falls back, or asks for the right reason. |
| `Clarify.DecisionUnique` | crates/ainxt-classify/src/lib.rs:693-736 | Replies, vocabulary and policy determine the outcome and the number of calls. |
| `Clarify.ParsedIsLabel` | crates/ainxt-classify/src/lib.rs:69-83 | A parse is one of the labels, at one of six confidences. |
| `Clarify.ActingIsSafe` | crates/ainxt-classify/src/lib.rs:611-736 | An acted-on label is in the vocabulary and was read confidently and unambiguously enough, or is the configured fallback after no reply could be read. |
| `Clarify.DefaultActsIff` | crates/ainxt-classify/src/lib.rs:597-627 | Under the default policy a parse is acted on iff it is unambiguous and not an embedded alias. |
| `LabelLaws.OutcomeExplained` | crates/ainxt-classify/src/lib.rs:597-736 | Every outcome of the cascade has its reason: what was read or not, and which limit of the policy it met. |
| `Welford.RunningStats.Push` | crates/ainxt-canary/src/alwaysvalid.rs:39-45 | Keeps mean and m2 equal to the batch formulas over everything pushed. |
| `Welford.RunningStats.Variance` | crates/ainxt-canary/src/alwaysvalid.rs:56-62 | The unbiased batch variance. |
| `Welford.Recentre` | crates/ainxt-canary/src/alwaysvalid.rs:39-45 | The parallel-axis identity for squared deviations. |
| `Welford.PushStep` | crates/ainxt-canary/src/alwaysvalid.rs:39-45 | The incremental mean and m2 are the batch values of the longer sequence. |
| `Welford.MeanIsBest` | crates/ainxt-canary/src/alwaysvalid.rs:39-45 | No centre has a smaller sum of squared deviations than the mean. |
| `Welford.ZeroVariance` | crates/ainxt-canary/src/alwaysvalid.rs:56-62 | The variance of two or more observations is zero iff they are all equal. |
| `Welford.StatsOrderFree` | crates/ainxt-canary/src/alwaysvalid.rs:39-62 | Mean and variance do not depend on the order of the observations. |
| `ConfigMerge.MergeToml` | crates/ainxt-config/src/lib.rs:472-486 | The recursive key loop computes the merge. |
| `ConfigMerge.LookupMerged` | crates/ainxt-config/src/lib.rs:472-486 | What any path leads to in a merged tree: nothing where the over layer blocks it, the over value, the base value, or the merge of both. |
| `ConfigMerge.EmptyIsIdentity` | crates/ainxt-config/src/lib.rs:472-486 | The empty table is a left identity, and a right identity exactly for tables. |
| `ConfigMerge.MergeWithSelf` | crates/ainxt-config/src/lib.rs:472-486 | Merging a layer with itself changes nothing. |
| `ConfigMerge.CoveredIff` | crates/ainxt-config/src/lib.rs:472-486 | A merge equals its over layer iff that layer says something wherever the base does. |
| `ConfigMerge.RegroupIff` | crates/ainxt-config/src/lib.rs:472-486 | Three layers merge the same in either grouping iff wherever the middle one puts a non-table between two tables the last covers the first. |
| `ConfigMerge.RegroupingCanDiffer` | crates/ainxt-config/src/lib.rs:472-486 | A concrete triple for which grouping matters. |
| `ConfigMerge.Merged` | crates/ainxt-config/src/lib.rs:535-541 | The fold over the layers, starting from the empty table. |
| `ConfigMerge.LastMentionDecides` | crates/ainxt-config/src/lib.rs:535-541 | The last layer that mentions a path decides it, by a non-table value or by blocking it. |
| `ConfigMerge.UnmentionedIsAbsent` | crates/ainxt-config/src/lib.rs:535-541 | A path no layer mentions is absent. |
| `Admission.LeastPrivilege` | crates/ainxt-admission/src/lib.rs:1129-1231 | An admitted run has the largest budget within the request and the grant, a turn within both data-class ceilings, and a principal who sees the harness and holds its required capabilities. |
| `Admission.AdmissionMonotone` | crates/ainxt-admission/src/lib.rs:684-701 | A weaker grant is admitted only where the stronger is, to a weaker run. |
| `Admission.GateMonotone` | crates/ainxt-admission/src/lib.rs:1235-1294 | A step that passes the gate of a weaker run passes that of a stronger one. |
| `HarnessLaws.AdmitIff` | crates/ainxt-admission/src/lib.rs:1129-1231 | A run is admitted iff role, visibility, required capabilities, renderer and data class all fit, and otherwise refused for the first that does not. |
| `HarnessRuns.RunWithContext` | crates/ainxt-admission/src/lib.rs:1335-1371 | The run loop executes up to the first refused step and reports the specified outcome. |
| `HarnessRuns.RunWithApprovals` | crates/ainxt-admission/src/lib.rs:1404-1471 | The same loop with the autonomy gate and the human decision before each execution. |
| `HarnessRuns.RunWithCompliance` | crates/ainxt-admission/src/lib.rs:1514-1584 | Is the plain run over the executor whose outputs are scanned: outcome, results and redaction total. |
| `HarnessLaws.RunIs` | crates/ainxt-admission/src/lib.rs:1235-1371 | A run executes exactly the steps before the first that is not requested, granted, authorized, within the boundary and within the steps, tokens and tool calls left; it reports that lack, or completion with what was used. |
| `HarnessLaws.CompletesIff` | crates/ainxt-admission/src/lib.rs:1235-1371 | A run completes iff it is admissible and every step is allowed. |
| `HarnessLaws.ApprovalRunIs` | crates/ainxt-admission/src/lib.rs:1377-1471 | With approvals it executes exactly the steps before the first that is not allowed or is a side effect held back by the autonomy level or the human, and reports which. |
| `HarnessLaws.RedactionsAre` | crates/ainxt-admission/src/lib.rs:1543-1556 | The reported number of redactions is their sum over the executed steps, up to the largest 64-bit number. |
| `HarnessLaws.RecordedIs` | crates/ainxt-admission/src/lib.rs:1543-1556 | A recorded result is what the executor returned when shown the earlier recorded ones, with its text scanned and its redactions added. |
| `HarnessRuns.WeakerGrantRunsPrefix` | crates/ainxt-admission/src/lib.rs:1335-1371 | A weaker grant executes a prefix of what the stronger grant executes. |
| `HarnessRuns.WeakerGrantApprovalsPrefix` | crates/ainxt-admission/src/lib.rs:1404-1471 | The same for runs with approvals, whatever the human decides. |
| `HarnessRuns.WeakerGrantCompletes` | crates/ainxt-admission/src/lib.rs:1335-1371 | A run that completes under the weaker grant completes identically under the stronger. |
| `HarnessRuns.ApprovalsRunPrefix` | crates/ainxt-admission/src/lib.rs:1404-1471 | A run with approvals executes a prefix of the run without. |
| `HarnessRuns.ApprovalsAgreeIff` | crates/ainxt-admission/src/lib.rs:1404-1471 | The two execute the same steps iff no step the plain run executes is held back. |
| `HarnessRuns.SideEffectsAllowed` | crates/ainxt-admission/src/lib.rs:1377-1460 | An executed side effect was autonomous, or assisted and approved. |
| `HarnessRuns.ExecutedStepsAreAllowed` | crates/ainxt-admission/src/lib.rs:1235-1294 | Every executed step was requested, granted, authorized and within the payment boundary and the data-class ceiling. |
| `HarnessRuns.RunsWithinBudget` | crates/ainxt-admission/src/lib.rs:1235-1371 | Steps and tool calls stay within the effective budget; tokens exceed it by at most the last step's use beyond its estimate. |
| `HarnessRuns.ApprovalsWithinBudget` | crates/ainxt-admission/src/lib.rs:1404-1471 | The same bounds on steps, tool calls and tokens for the run with approvals. |
| `HarnessRuns.ScannedWithinBudget` | crates/ainxt-admission/src/lib.rs:1514-1584 | The same bounds for the run with compliance scanning, which leaves token counts as they are. |
| `HarnessRuns.ResultsAreScanned` | crates/ainxt-admission/src/lib.rs:1543-1556 | Each recorded output is the scan of what the executor returned when shown only scanned results. |
| `HarnessRuns.OutputsAreClean` | crates/ainxt-admission/src/lib.rs:1543-1556 | A property every scanned text has holds of every recorded output. |
| `ComplianceRuns.NoLongDigitRunSurvives` | crates/ainxt-admission/src/lib.rs:1514-1584 | Scanning with the long-digit-run redactor leaves no unexempt long digit run in any recorded output, whatever the steps emit. |

## Left out

- ZIP64: the writer has none. From 2^32 bytes on, stored offsets and sizes are truncated as the casts do in a release build; the subtraction and overflow checks of a debug build are not modelled.
- StoredZip.RoundTripIff: assumes that the local part is below 2^32 bytes. Above, the directory's start is truncated, and whether an archive reads back depends on what its data holds there: `StoredZip.RoundTripNeedsSignature` is necessary at every size, not sufficient.
- OOXML parts: the XML that DOCX, XLSX and PPTX put into the archive is opaque bytes to the ZIP writer.
- PdfReader.RenderRoundTrip: the reader expects the writer's own dictionary keys in the writer's order; it is not a general PDF parser. Font metrics and rendering are not modelled.
- PdfFile.BuildObjects: the source sorts the objects by number before writing; they are proved to be in that order already, and the sort is not repeated.
- PdfPages.Flatten: the heading level it keeps is used by the DOCX writer only; the list of unrepresentable characters reported to callers is not modelled.
- ResponseCache.Cache.GetSemantic: similarity is a parameter that gives each embedding a real score or none; cosine and its floating-point rounding are not modelled. `key` normalization uses Unicode white space and a lower-casing parameter.
- CacheRuns.LargerCacheIncludes: is for runs without semantic searches; `CacheRuns.InclusionIff` is the law for all runs.
- CacheRuns.PartitionsIsolated: the map of partitions is modelled on values, so it does not show that a partition's cache is updated in place. Hit-rate division is left out.
- TokenDetectors.DetectHighEntropy: Shannon entropy is a predicate parameter.
- Redaction with the full detector set is not claimed to reach a fixed point: an inserted label is itself a credential word. The chain of gates behind one seam is only modelled as the scanner of a harness run.
- CodeFence.CodeRoundTrip: the reader returns the info string before CommonMark's backslash escapes and entity references are processed in it.
- Citations: rendering of headings, tables and plain text; `to_markdown` beyond the code block and the citation marker.
- Labels: lower-casing is ASCII; which characters make up words is a parameter. Confidences are exact reals, where the source multiplies 32-bit floats.
- Clarify.ClassifyConstrained: the model's answers are given as a sequence, one per call; prompt text is left out.
- Welford.RunningStats.Push: over the reals; floating-point rounding, the 64-bit count and the confidence sequence built on it are not modelled.
- Welford.RunningStats.Variance: over the reals, like `Push`.
- ConfigMerge: arrays and scalars are opaque leaves; parsing, deserialization and field checks are left out.
- HarnessRuns: executors, scanners and human decisions are functions of what they see; audit events and error texts are left out. Steps run in order, so a run is described by how many steps it executes.
- Clients, servers, command lines, process spawning, serialization, code generation and locks.
