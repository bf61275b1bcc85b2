# Verification of the Confer document worker and release measurement

This project models the parts of Confer whose correctness rests on an argument that spans
several functions, and proves that argument with Dafny 4.11. `dafny verify dfyconfig.toml`
checks all of it.

- **The document artifact** (`Utf8`, `ArtifactModel`, `ArtifactWriter`, `ArtifactChunks`, `ArtifactReader`).
  The writer flattens containers and blocks into one UTF-8 byte string, records offsets,
  and cuts the string into overlapping chunks; the reader answers from the offsets alone.
  The models are classes and methods with the loops of the source, proved against a small
  reference definition of the canonical text. The chunk loop is shown to end on every text
  exactly when the overlap is at most half the chunk size less three bytes. The constructor
  accepts more than that.
- **Search** (`PythonText`, `MatchLanguage`, `SearchQueries`, `SearchSnippets`). The query compiler is proved
  against a lexer, parser and evaluator of the query language of the index; the marker parser
  against a marking function; the snippet window against the text it is cut from.
- **The worker protocol and session** (`Protocol`, `ProtocolRoles`, `ProtocolCodec`, `DocumentSession`,
  `WorkerProcess`).
  Framing over a stream whose reads may be short, and the request loop with its table of
  open readers, over every sequence of frames and failures, against a run of a table without a heap.
- **The release measurement** (`PeImage`, `Authenticode`, `DigestCoverage`,
  `ImageExamples`, `Registers`, `ReleaseMeasurement`)
  and **the listener** (`Listener`). Which bytes of a PE image its digest covers, and what a
  register value says about a boot, over an abstract collision-free hash.
- **Extraction** (`TextBlocks`, `Rasterization`, `PdfScan`, `PdfOcr`, `Decimals`, `OfficeMapper`). The block
  splitter, the scaling loop, the PDF page pipeline and the numbering of office documents.

Things the code does that a reader may not expect, each with an input that shows it and the
exact condition under which it does not happen:

- the chunk loop can stay where it is (`NeverEnds`): it ends on all texts exactly for a paced
  overlap (`EndsOnEveryTextIffPaced`);
- the digest of an image with a gap before a section leaves a byte uncovered (`GapEscapesDigest`,
  `ManyImagesOneDigest`): it pins the image exactly when that image has no gap, whatever it is
  compared with (`PinnedIffGapFree`, `PinnedByRtmr1IffGapFree`), but fixes the embedded kernel
  image in any case (`DigestFixesKernel`);
- the digest of an image with a section in its certificate table changes when the image is signed
  again (`SignatureMayBeHashed`), and exactly then (`SurvivesSigningIff`);
- a region that touches only empty blocks at the edge of a window is not shown
  (`EmptyBlockLosesRegion`, `RegionSelectedIff`);
- a reader behind one that raises on closing is never closed (`NeighbourIsLost`), nor is one whose
  temporary file cannot be dropped; a whole run loses none exactly as `RunLosesNoneIff` says.

Where a method is proved against a reference function, a lemma says what that function computes
without naming it: by places in a text (`WordsAreRuns`, `SplitsAtBlankLines`), points in a plane
(`IntersectsIff`), a relation between tables (`TakesStep`) or the items themselves
(`DocumentIsMapped`).

Conventions: a Python exception is an error value, a dictionary whose order matters is a
sequence of entries, and what the environment decides (clock, sockets, files, other
processes, the libraries for PDF, OCR and images) is a parameter that may have any value.

## Model

| member | source | states |
|---|---|---|
| Utf8.DecodesIffEncoding | document-worker/src/confer_document_worker/artifact/ArtifactWriter.py:275 | strict decoding and encoding are inverse, and nothing but an encoding decodes (sections 3 and 4 of RFC 3629) |
| Utf8.SliceDecodes | document-worker/src/confer_document_worker/artifact/ArtifactWriter.py:275-280 | a slice of well-formed text between two boundaries that the byte test finds is itself well-formed |
| Utf8.BoundaryWithinThree | document-worker/src/confer_document_worker/artifact/ArtifactWriter.py:296-299 | stepping back from any offset of a well-formed text meets a character boundary within three bytes |
| Utf8.IgnoreKeepsWholeChars | document-worker/src/confer_document_worker/artifact/ArtifactReader.py:150-151 | decoding any cut of a well-formed text with errors ignored keeps exactly the whole characters before the cut |
| Utf8.EncodingExamples | document-worker/src/confer_document_worker/artifact/ArtifactWriter.py:177 | the characters of the examples in section 7 of RFC 3629 are encoded as they are there, one of each length |
| ArtifactModel.ContainerRangesSlice | document-worker/src/confer_document_worker/artifact/ArtifactWriter.py:170-199 | every container range slices the canonical text to exactly the text of that container's own blocks; the first starts at 0 and the last ends the text |
| ArtifactModel.ContainerRangesApart | document-worker/src/confer_document_worker/artifact/ArtifactWriter.py:167-170 | consecutive container ranges are disjoint, in order, and exactly one separator apart |
| ArtifactModel.BlockRangesSlice | document-worker/src/confer_document_worker/artifact/ArtifactWriter.py:173-180 | every block range slices the canonical text to exactly the text of that block and lies inside its container |
| ArtifactModel.BlockRangesApart | document-worker/src/confer_document_worker/artifact/ArtifactWriter.py:174-178 | the blocks of a container are in order; between two neighbours lies one newline, or nothing when the text of the container so far is empty or ends in a newline |
| ArtifactModel.IntersectsIff | document-worker/src/confer_document_worker/domain/Bounds.py:21-22 | for any boxes that may be made: they intersect if and only if some point lies inside both, off the edges, and not both are without width or without height |
| ArtifactModel.EdgesDoNotMeet | document-worker/src/confer_document_worker/domain/Bounds.py:21-22 | boxes beside or on top of each other that share an edge at most do not intersect |
| ArtifactModel.TextDecodes | document-worker/src/confer_document_worker/artifact/ArtifactWriter.py:164-177 | every canonical text is well-formed UTF-8 |
| ArtifactWriter.GlobalNewlineRuleIsLocal | document-worker/src/confer_document_worker/artifact/ArtifactWriter.py:174-175 | looking at the last byte of the whole buffer decides as looking at the container's own text would, so a container's text depends on its own blocks alone |
| ArtifactWriter.WriteBlocks | document-worker/src/confer_document_worker/artifact/ArtifactWriter.py:173-195 | the inner loop extends the buffer by the text of the container's blocks and stores one row per block with its exact range |
| ArtifactWriter.RegionExtent | document-worker/src/confer_document_worker/artifact/ArtifactWriter.py:213-220 | a region's extent is the least start and greatest end of the blocks it meets, and NULL when it meets none |
| ArtifactWriter.WriteContent | document-worker/src/confer_document_worker/artifact/ArtifactWriter.py:159-248 | fails exactly when a region id is used twice; otherwise returns the canonical text and stores for every block, container and region the range the model gives it, and the outline in its order |
| ArtifactChunks.ChunkEndChoice | document-worker/src/confer_document_worker/artifact/ArtifactWriter.py:283-294 | where a chunk ends: the end of the text, else the last newline of its second half, else the last space there, else the greatest boundary within the limit |
| ArtifactChunks.NextStartFacts | document-worker/src/confer_document_worker/artifact/ArtifactWriter.py:277-281 | the next chunk begins at the last boundary up to the overlap before the end of this one, or up to the byte after its start when that is later; never behind its end |
| ArtifactChunks.PacedRun | document-worker/src/confer_document_worker/artifact/ArtifactWriter.py:259-281 | with an overlap of at most half the chunk less three, every round advances and the loop reaches the end from any character boundary |
| ArtifactChunks.StuckRound | document-worker/src/confer_document_worker/artifact/ArtifactWriter.py:277-299 | without that, on a text with a four-byte character in front and one newline at half a chunk the first round leads back to where it began |
| ArtifactChunks.NeverEnds | document-worker/src/confer_document_worker/artifact/ArtifactWriter.py:259-281 | that text is well-formed, and the loop of an accepted configuration never ends on it |
| ArtifactChunks.DefaultEnds | document-worker/src/confer_document_worker/artifact/ArtifactWriter.py:26-29 | with the default sizes the loop ends on every well-formed text |
| ArtifactChunks.EndsOnEveryTextIffPaced | document-worker/src/confer_document_worker/artifact/ArtifactWriter.py:32 | for every configuration the constructor accepts: the loop ends on all texts if and only if the overlap is at most half the chunk less three |
| ArtifactChunks.OverlapsIff | document-worker/src/confer_document_worker/artifact/ArtifactWriter.py:266 | a container is overlapped by a chunk exactly when they share a byte, or when it is empty and inside the chunk, off its edges |
| ArtifactChunks.ContainerInterval | document-worker/src/confer_document_worker/artifact/ArtifactWriter.py:263-273 | the stored interval is exactly the set of containers a chunk overlaps, which has no holes, or the last one that starts at or before it when there is none |
| ArtifactChunks.NearestContainer | document-worker/src/confer_document_worker/artifact/ArtifactWriter.py:301-305 | the last container of the list that starts at or before an offset; the first of the list when none does, and 0 for an empty list |
| ArtifactChunks.Utf8Boundary | document-worker/src/confer_document_worker/artifact/ArtifactWriter.py:296-299 | the loop that steps back finds the greatest boundary at or before the offset |
| ArtifactChunks.WriteChunks | document-worker/src/confer_document_worker/artifact/ArtifactWriter.py:250-281 | the whole chunk table: one row per round with the right container interval, and an index row with the decoded text of exactly that slice |
| ArtifactChunks.ChunksAligned | document-worker/src/confer_document_worker/artifact/ArtifactWriter.py:259-281 | every chunk is at most the chunk size long, starts and ends between characters, and only the last ends the text |
| ArtifactChunks.ChunksOverlap | document-worker/src/confer_document_worker/artifact/ArtifactWriter.py:277-281 | starts and ends strictly increase and neighbours share between overlap and overlap + 3 bytes |
| ArtifactChunks.ShortStretchInSomeChunk | document-worker/src/confer_document_worker/artifact/ArtifactWriter.py:250-281 | every stretch of text no longer than the overlap lies whole in some chunk |
| ArtifactChunks.EveryByteInSomeChunk | document-worker/src/confer_document_worker/artifact/ArtifactWriter.py:250-281 | whatever the overlap, the chunks of a finished loop leave no byte out |
| ArtifactChunks.Write | document-worker/src/confer_document_worker/artifact/ArtifactWriter.py:43-74 | content, chunks, the whole text and the counts in the metadata, written one after the other, meet their specifications on a fresh database |
| ArtifactReader.WindowSlice | document-worker/src/confer_document_worker/artifact/ArtifactReader.py:119-166 | the offsets of a run of containers slice the canonical text to the separator-join of their texts |
| ArtifactReader.FittingRows | document-worker/src/confer_document_worker/artifact/ArtifactReader.py:134-146 | testing each row by itself keeps a run without holes, the longest one that fits |
| ArtifactReader.ReadContainers | document-worker/src/confer_document_worker/artifact/ArtifactReader.py:119-166 | each error exactly for its own bad argument; otherwise the longest run of whole containers that fits with the join of their texts, or the longest character prefix within the limit, each with the regions of that range |
| ArtifactReader.TruncatedCut | document-worker/src/confer_document_worker/artifact/ArtifactReader.py:148-151 | the truncated text ends where the writer's boundary search would end it |
| ArtifactReader.RegionSelectedIff | document-worker/src/confer_document_worker/artifact/ArtifactReader.py:270-291 | the query over offsets selects a region if and only if its container is in the window and the region is not an empty extent at the window's edge |
| ArtifactReader.RegionsOfWindow | document-worker/src/confer_document_worker/artifact/ArtifactReader.py:270-291 | with text in every block, a window of whole containers shows exactly the regions of its containers |
| ArtifactReader.EmptyBlockLosesRegion | document-worker/src/confer_document_worker/artifact/ArtifactReader.py:270-291 | with an empty block first in its container this fails: the stored region is shown by no window |
| ArtifactReader.RegionsOfHit | document-worker/src/confer_document_worker/artifact/ArtifactReader.py:71-117 | the regions of a search hit lie in the containers of the chunk's stored interval, and a region with text is among them if and only if it shares a byte with the chunk |
| ArtifactReader.WrittenIsReadable | document-worker/src/confer_document_worker/artifact/ArtifactWriter.py:43-248 | what the writer stores is what the reader relies on |
| ArtifactReader.WriteThenRead | document-worker/src/confer_document_worker/artifact/ArtifactWriter.py:43-74 | writing a document and paging through it gives the canonical text back if and only if every container fits a window |
| ArtifactReader.ReadThrough | document-worker/src/confer_document_worker/artifact/ArtifactReader.py:119-166 | a caller who steps to the end of each window plus one gets every container in exactly one window; none of the windows is truncated if and only if every container fits one by itself, and exactly then the joined windows are the canonical text; otherwise something is missing |
| ArtifactReader.WindowIsPart | document-worker/src/confer_document_worker/artifact/ArtifactReader.py:134-166 | what a window returns is the join of its containers, or strictly less when it is truncated |
| ArtifactReader.WindowFits | document-worker/src/confer_document_worker/artifact/ArtifactReader.py:144-151 | a window is truncated exactly when its first container does not fit by itself |
| SearchQueries.RenderedMeaning | document-worker/src/confer_document_worker/artifact/ArtifactReader.py:308-331 | the rendered string parses in the query language of the index and matches a row if and only if the row has every phrase of some alternative |
| SearchQueries.AlternativeInjective | document-worker/src/confer_document_worker/artifact/ArtifactReader.py:325-328 | equal alternatives have equal phrases, so dropping repeated strings loses no query |
| SearchQueries.WordsAreRuns | document-worker/src/confer_document_worker/artifact/ArtifactReader.py:315-319 | the words of a text are its maximal runs of word characters, all of them, in order: each stands at its place with no word character right before or after, and none is outside of them |
| SearchQueries.PhraseSpellsRuns | document-worker/src/confer_document_worker/artifact/ArtifactReader.py:314-323 | the phrase of a literal spells the runs of its folded text in order with one space between neighbours; it has a word if and only if the folded text has a word character |
| SearchQueries.Required | document-worker/src/confer_document_worker/artifact/ArtifactReader.py:314-323 | the distinct phrases of a query's literals in order, or nothing exactly when some literal has no word |
| SearchQueries.MatchQuery | document-worker/src/confer_document_worker/artifact/ArtifactReader.py:308-331 | fails if and only if no query is searchable; otherwise the result matches exactly the rows that some searchable query wants |
| SearchSnippets.SearchMarkersDistinct | document-worker/src/confer_document_worker/artifact/ArtifactReader.py:71-73 | the markers a search makes are ones the parser can tell apart |
| SearchSnippets.MarkedFragment | document-worker/src/confer_document_worker/artifact/ArtifactReader.py:356-387 | the one-pass loop computes the parse of the marked text |
| SearchSnippets.ParsingUndoesMarking | document-worker/src/confer_document_worker/artifact/ArtifactReader.py:356-387 | for any text free of the markers and any ordered disjoint spans, parsing the marked text gives back text and spans |
| SearchSnippets.OnlyMarkingsParse | document-worker/src/confer_document_worker/artifact/ArtifactReader.py:356-387 | whatever is accepted is the marking of the text and spans returned: nested, unbalanced or absent markers are rejected |
| SearchSnippets.BoundaryAfter | document-worker/src/confer_document_worker/artifact/ArtifactReader.py:428-438 | the first white space at or after an offset |
| SearchSnippets.BoundaryBefore | document-worker/src/confer_document_worker/artifact/ArtifactReader.py:428-438 | just after the last white space before an offset |
| SearchSnippets.BoundedSnippet | document-worker/src/confer_document_worker/artifact/ArtifactReader.py:389-426 | at most limit characters for all inputs: the whole text if it fits; else one slice, with an ellipsis on a side if and only if text was dropped there, whose edges are those of the window moved to the nearest white space that keeps the match; the whole match if and only if it leaves room for two ellipses; no word cut between an edge and the match |
| SearchSnippets.RawWindow | document-worker/src/confer_document_worker/artifact/ArtifactReader.py:402-416 | exactly the window: a third of the room that the match leaves lies before it, as far as the text reaches, the rest behind it up to the limit; of a match without room its last limit - 2 characters; the second clamp is never reached |
| SearchSnippets.SnippetAround | document-worker/src/confer_document_worker/artifact/ArtifactReader.py:389-426 | the snippet of a text around a match, which shows all of the match whenever it leaves room for two ellipses |
| SearchSnippets.FtsSnippet | document-worker/src/confer_document_worker/artifact/ArtifactReader.py:333-354 | nothing exactly for invalid markers; otherwise the bounded snippet of the text around the first place of the fragment, or of the fragment when it is nowhere in the text, for the match from the first to the last marked one |
| TextBlocks.StripFacts | document-worker/src/confer_document_worker/extraction/text/TextDocumentExtractor.py:70-82 | stripping drops white space only |
| TextBlocks.SplitSolid | document-worker/src/confer_document_worker/extraction/text/TextDocumentExtractor.py:70 | splitting at blank lines drops white space only |
| TextBlocks.SplitStretches | document-worker/src/confer_document_worker/extraction/text/TextDocumentExtractor.py:70 | the stripped pieces are stretches of the text, in order, with nothing but white space between them |
| TextBlocks.SplitPieces | document-worker/src/confer_document_worker/extraction/text/TextDocumentExtractor.py:70 | no piece holds a blank line |
| TextBlocks.SplitsAtBlankLines | document-worker/src/confer_document_worker/extraction/text/TextDocumentExtractor.py:70 | a text is split at its blank lines, from the first on and each as long as possible, and nowhere else |
| TextBlocks.SplitPoint | document-worker/src/confer_document_worker/extraction/text/TextDocumentExtractor.py:75-79 | the cut is the last newline of the first limit characters, else the last blank, both in the second half only, else the limit |
| TextBlocks.SplitParagraph | document-worker/src/confer_document_worker/extraction/text/TextDocumentExtractor.py:72-83 | the inner loop ends for every positive limit; a paragraph within the limit stays whole and any other is cut at exactly the points of the rule, into stretches of it with only white space between them |
| TextBlocks.Blocks | document-worker/src/confer_document_worker/extraction/text/TextDocumentExtractor.py:69-84 | the blocks are the paragraphs of the text cut up in order: stretches of the text with only white space between them, each non-empty, stripped, free of blank lines and at most limit long |
| TextBlocks.ShortParagraphWhole | document-worker/src/confer_document_worker/extraction/text/TextDocumentExtractor.py:72-83 | a paragraph of at most limit characters is one block |
| TextBlocks.EachIsBlock | document-worker/src/confer_document_worker/extraction/text/TextDocumentExtractor.py:69-84 | each single element of such a list is such a block |
| TextBlocks.ZeroLimitStuck | document-worker/src/confer_document_worker/extraction/text/TextDocumentExtractor.py:74-81 | with a limit of zero the cut removes nothing, so the loop would never end |
| Rasterization.ShrinkShrinks | document-worker/src/confer_document_worker/domain/RasterizationPolicy.py:28-33 | a round that does not fit keeps the scale positive and takes at least one part in a hundred off it |
| Rasterization.ShrinksExactly | document-worker/src/confer_document_worker/domain/RasterizationPolicy.py:28-33 | what a round does: the longer side of a page one pixel wide or high becomes 0.99 of the limit, so the minimum there never is the scale itself; any other page gets the area of the limit times 0.99 squared |
| Rasterization.SideIs | document-worker/src/confer_document_worker/domain/RasterizationPolicy.py:23-24 | a side in pixels is the least whole number that covers it, and one at least |
| Rasterization.UnfitBounded | document-worker/src/confer_document_worker/domain/RasterizationPolicy.py:21-33 | the number of rounds without a fit is bounded by the size of the page |
| Rasterization.BoundedScale | document-worker/src/confer_document_worker/domain/RasterizationPolicy.py:12-33 | rejects exactly what is not positive; otherwise ends, with the first scale tried that fits, positive and at most dpi / 72 |
| Rasterization.FittingIsPermitted | document-worker/src/confer_document_worker/domain/RasterizationPolicy.py:35-40 | a page at a fitting scale passes the check of the rendered image, and only then |
| Rasterization.FitsAtOnce | document-worker/src/confer_document_worker/domain/RasterizationPolicy.py:21-27 | a page that fits at dpi / 72 keeps that scale |
| Rasterization.OneSideLastRound | document-worker/src/confer_document_worker/domain/RasterizationPolicy.py:28-31 | once one side is a single pixel at most one more round follows |
| PeImage.FieldTells | scripts/measure-release-image:312-321 | a field that can be read is below 256 to its length, and two fields have the same value if and only if their bytes are the same |
| PeImage.ReadHeader | scripts/measure-release-image:324-416 | the checks step by step give the header of the reference layout, or the first error in order |
| PeImage.ParsePeImage | scripts/measure-release-image:324-464 | the loop over the section table gives all sections, or the first error |
| PeImage.HeaderFacts | scripts/measure-release-image:478-483 | the layout checks order the headers, so the guard on the security directory never fires |
| Authenticode.SortSorts | scripts/measure-release-image:504-512 | sorting puts the same raw sections in order |
| Authenticode.SortedByOffset | scripts/measure-release-image:504-512 | that order is by offset, and by size where two have the same offset |
| Authenticode.AuthenticodeInput | scripts/measure-release-image:467-526 | the accumulated hash input, or the first error, of the reference definition |
| Authenticode.HashSections | scripts/measure-release-image:510-518 | fails exactly when two sections overlap |
| Authenticode.HashInputLength | scripts/measure-release-image:467-526 | for every accepted image the hash input is 12 bytes (4 without a security entry) and the certificate shorter than the image |
| Authenticode.GapFreeCoversImage | scripts/measure-release-image:467-526 | for an accepted image without gaps it is the image without checksum, security entry and certificate |
| DigestCoverage.HashTellsLayout | scripts/measure-release-image:467-526 | for any two accepted images, with or without gaps: the same hash input means the same headers and section table |
| DigestCoverage.DigestFixesSections | scripts/measure-release-image:510-518 | and the same bytes in every section |
| DigestCoverage.DigestPinsImage | scripts/measure-release-image:467-526 | for an accepted image without gaps and any other accepted image: equal hash inputs if and only if the images agree outside checksum, security entry and certificate |
| DigestCoverage.PinnedIffGapFree | scripts/measure-release-image:467-526 | the exact condition: all accepted images with the hash input of an image agree with it there if and only if it has no gap |
| DigestCoverage.SigningKeepsDigest | scripts/measure-release-image:467-526 | changing only those parts of an image whose sections end before its certificate table, with or without gaps, leaves its layout and hash input unchanged |
| DigestCoverage.SurvivesSigningIff | scripts/measure-release-image:467-526 | the exact condition: no change of those parts changes the hash input if and only if no section reaches into the certificate table |
| Authenticode.GapEscapesDigest | scripts/measure-release-image:510-525 | for every accepted image with a gap some byte outside headers and certificate can be anything without changing the hash input |
| ImageExamples.GapMayBeAccepted | scripts/measure-release-image:324-526 | a complete image of 242 bytes is accepted with its section right behind the headers, where it has no gap, and one byte further, where it has one |
| ImageExamples.ManyImagesOneDigest | scripts/measure-release-image:467-526 | the latter with any byte in its gap has one and the same hash input |
| ImageExamples.SignatureMayBeHashed | scripts/measure-release-image:324-526 | a complete image of 222 bytes is accepted with its section before its certificate table, where the hash input survives signing, and in it, where it does not |
| Registers.RegisterTellsHistory | scripts/measure-release-image:560-567 | with a collision-free hash the value of a register tells the whole sequence of extensions |
| Registers.FreeIsCollisionFree | scripts/measure-release-image:560-567 | the assumption on the hash can be met |
| ReleaseMeasurement.CalculateRtmr1 | scripts/measure-release-image:570-591 | the chain of extensions from zeros, written out: calling, separator, partition table, unified kernel image, embedded image, exiting, exited; it is the register after these seven events |
| ReleaseMeasurement.EventsTell | scripts/measure-release-image:570-591 | equal RTMR1 values have equal partition table, kernel image and embedded image digests |
| ReleaseMeasurement.Rtmr1Tells | scripts/measure-release-image:548-598 | for any two accepted releases: equal RTMR1 values if and only if equal partition table events and equal hash inputs of the unified kernel images; the embedded image, or its absence, is then the same too |
| ReleaseMeasurement.Rtmr1PinsRelease | scripts/measure-release-image:548-598 | for a release whose unified kernel image has no gap and any other: equal RTMR1 values if and only if equal partition table events and unified kernel images equal but for checksum and signature |
| ReleaseMeasurement.PinnedByRtmr1IffGapFree | scripts/measure-release-image:548-598 | the exact condition: the RTMR1 value pins the unified kernel image, its signature aside, if and only if that image has no gap |
| ReleaseMeasurement.DigestFixesKernel | scripts/measure-release-image:529-557 | for any accepted unified kernel images, with or without gaps, equal hash inputs mean the same embedded kernel image or the same reason for none |
| ReleaseMeasurement.KernelIsOf | scripts/measure-release-image:529-545 | the embedded kernel image is the beginning, of the length of the virtual size, of the one section whose name is .linux padded with zeros, and there is none exactly when there is no such one section or its size is not within its raw data |
| Listener.EventTells | mkosi.skeleton/usr/local/libexec/confer-worker-listener:320 | the reservation event fixes host key, client key and challenge, because all three have fixed lengths |
| Listener.MessagesAreLaidOut | mkosi.skeleton/usr/local/libexec/confer-worker-listener:320-333 | where each part of the two messages is: the domain, the host key, the client key, the challenge |
| Listener.ReportTells | mkosi.skeleton/usr/local/libexec/confer-worker-listener:333 | the report data fixes the same three |
| Listener.ExpectedMeansOnly | mkosi.skeleton/usr/local/libexec/confer-worker-listener:308-323 | the register has the value the client recomputes if and only if this event is the whole history since boot |
| Listener.OneClientConvinced | mkosi.skeleton/usr/local/libexec/confer-worker-listener:308-323 | no two reservations of one boot can both have that value at any times |
| Listener.Boot.RecordReservation | mkosi.skeleton/usr/local/libexec/confer-worker-listener:291-323 | succeeds if and only if the write was complete and the history, with whatever others extended meanwhile, is this one event |
| Listener.Boot.AcceptUntil | mkosi.skeleton/usr/local/libexec/confer-worker-listener:98-118 | ready is published before it waits and withdrawn whatever comes of it, and never published when admission is closed or a marker is left over; the exact error of each case |
| Listener.Boot.CreateAttestation | mkosi.skeleton/usr/local/libexec/confer-worker-listener:326-352 | succeeds if and only if the request and the host key are sound, no key file exists, the register was never extended before or between, and quote and response can be made; the key file is written at most once and a quote made only after the reservation was recorded |
| Listener.Boot.Serve | mkosi.skeleton/usr/local/libexec/confer-worker-listener:370-396 | succeeds if and only if it is the first start, the one client connects in time, and the attestation succeeds and is sent; a second start changes nothing; success hands exactly one client key to sshd, the one in the key file |
| Listener.Boot.Run | mkosi.skeleton/usr/local/libexec/confer-worker-listener:370-396 | over any starts, extensions by others and changes to the listener's files, at most one reservation of a boot is recorded, quoted and admitted |
| Protocol.FrameRoundTrip | document-worker/src/confer_document_worker/protocol/ProtocolCodec.py:17-94 | reading what was written gives the message back and leaves what follows |
| Protocol.ConversationRoundTrip | document-worker/src/confer_document_worker/protocol/ProtocolCodec.py:17-94 | the concatenation of written messages reads back as those messages with nothing left over |
| Protocol.PrefixTruncated | document-worker/src/confer_document_worker/protocol/ProtocolCodec.py:96-103 | every strict prefix of a frame is rejected as truncated |
| Protocol.BigEndianIsNumeral | document-worker/src/confer_document_worker/protocol/ProtocolCodec.py:18-19 | the length of the header is read and written with its most significant byte first |
| Protocol.AcceptedIsPermitted | document-worker/src/confer_document_worker/protocol/ProtocolCodec.py:37-60 | whatever is read has distinct roles, fitting media types and lengths within the limits |
| ProtocolRoles.RolesAreConsistent | document-worker/src/confer_document_worker/protocol/PayloadRole.py:4-26 | the five role names are told apart, so the round trips hold for the vocabulary of the worker |
| ProtocolRoles.AcceptsExactly | document-worker/src/confer_document_worker/protocol/PayloadRole.py:11-26 | a source may have any media type with a character that is no white space, every other role exactly its own |
| ProtocolCodec.ReadExact | document-worker/src/confer_document_worker/protocol/ProtocolCodec.py:96-103 | under any schedule of short reads, the next bytes, or everything and an error |
| ProtocolCodec.Receive | document-worker/src/confer_document_worker/protocol/ProtocolPayload.py:57-81 | under any schedule of short reads, a payload of exactly the next bytes |
| ProtocolCodec.ProtocolPayload.ReadBytes | document-worker/src/confer_document_worker/protocol/ProtocolPayload.py:104-114 | the contents, unless too long or closed |
| ProtocolCodec.ProtocolPayload.WriteTo | document-worker/src/confer_document_worker/protocol/ProtocolPayload.py:116-128 | appends exactly the contents, or nothing once closed |
| ProtocolCodec.ReadPayloads | document-worker/src/confer_document_worker/protocol/ProtocolCodec.py:35-60 | the loop parses the payloads the descriptors announce; on rejection every payload received so far is closed |
| ProtocolCodec.Read | document-worker/src/confer_document_worker/protocol/ProtocolCodec.py:17-63 | under any schedule of short reads, exactly the reference parse of the front of the stream |
| ProtocolCodec.WriterChecksLikeReader | document-worker/src/confer_document_worker/protocol/ProtocolCodec.py:69-82 | the writer's checks pass exactly for what the reader permits |
| ProtocolCodec.Write | document-worker/src/confer_document_worker/protocol/ProtocolCodec.py:65-94 | a whole frame if and only if the message may be written and no payload is closed; nothing at all when a check fails |
| ProtocolCodec.ReadConversation | document-worker/src/confer_document_worker/protocol/ProtocolCodec.py:17-63 | a stream of written messages is read back in order, taking exactly their bytes |
| DocumentSession.Session.OpenDocument | document-worker/src/confer_document_worker/application/DocumentSession.py:71-78 | enters one new reader last in the table exactly when the id is free, there is room and the artifact is sound; otherwise nothing changes and the caller is told which |
| DocumentSession.Session.OpenTextDocument | document-worker/src/confer_document_worker/application/DocumentSession.py:80-94 | the same for text; a reader made before the temporary file cannot be dropped is in no table and never closed |
| DocumentSession.Session.ReleaseDocument | document-worker/src/confer_document_worker/application/DocumentSession.py:157-161 | afterwards no entry has the id and all others are kept in order; the reader that was under it has one closing more and no other reader has; fails exactly when closing that reader raises, and does nothing when the id is not open |
| DocumentSession.Session.Close | document-worker/src/confer_document_worker/application/DocumentSession.py:65-69 | empties the table and closes each of its readers once up to the first whose closing raises and none behind it, which are lost; raises exactly when one of them does |
| DocumentSession.CloseLosesNoneIff | document-worker/src/confer_document_worker/application/DocumentSession.py:65-69 | a closing loses no reader if and only if no raising reader has another behind it |
| DocumentSession.Session.Execute | document-worker/src/confer_document_worker/application/DocumentSession.py:45-63 | every request takes the table and ends as told step by step: one new last entry, one entry less, an empty table or no change, each with its exact outcome; the dictionary is that table, with each reader made closed once unless it is open or lost |
| DocumentSession.TakesStep | document-worker/src/confer_document_worker/application/DocumentSession.py:45-99 | what each request does to a sound table and how it ends, told as a relation apart from the functions that compute it |
| DocumentSession.ReleasedOpensAgain | document-worker/src/confer_document_worker/application/DocumentSession.py:157-161 | a document that was released is not open, and the same id can be opened again, even in a session that was full |
| DocumentSession.StaysSound | document-worker/src/confer_document_worker/application/DocumentSession.py:45-99 | every request keeps at most 1000 entries with ids and readers all different, none of them lost |
| DocumentSession.LosesNoneIff | document-worker/src/confer_document_worker/application/DocumentSession.py:45-94 | a request loses no reader if and only if it is neither a text opened with room whose temporary file stays nor a closing with a reader behind a raising one |
| WorkerProcess.Worker.Handle | document-worker/src/confer_document_worker/worker/WorkerProcess.py:73-89 | one response whatever the outcome, unless it cannot be written: an answer exactly for a request that succeeded and could be presented, an invalid request exactly for one that was refused, else a failure |
| WorkerProcess.Worker.RunSession | document-worker/src/confer_document_worker/worker/WorkerProcess.py:53-64 | reads frames up to the first that ends the session, with the responses and the table of the reference after each; no extraction; returns or raises as that frame says |
| WorkerProcess.EveryFrameAnswered | document-worker/src/confer_document_worker/worker/WorkerProcess.py:53-89 | frame by frame, in its place: an answer exactly when the request was executed on the state before it, succeeded and could be presented; an invalid request exactly when it is none, is a late extraction or was refused; only a last frame may have none |
| WorkerProcess.RunEndsAt | document-worker/src/confer_document_worker/worker/WorkerProcess.py:37-64 | which frame is the last: the first that was not released or answered, closes the session, or comes first without being a session request; the run returns exactly when that frame was answered and released |
| WorkerProcess.FrameSteps | document-worker/src/confer_document_worker/worker/WorkerProcess.py:53-89 | from frame to frame the table goes as the request of the frame takes it |
| WorkerProcess.Worker.Run | document-worker/src/confer_document_worker/worker/WorkerProcess.py:37-51 | for every script of frames: frames read, responses, readers made and table are those of the reference run, and at the exit the table is empty and every reader made was closed exactly once unless the reference lost it; extraction for the first frame only |
| WorkerProcess.RunLosesNoneIff | document-worker/src/confer_document_worker/worker/WorkerProcess.py:37-64 | the run closes every reader if and only if no text opened with room drops its reader and at each closing, the last included, no raising reader has another behind it |
| WorkerProcess.QuietRunLosesNone | document-worker/src/confer_document_worker/worker/WorkerProcess.py:37-64 | a script whose readers do not raise and that leaves no temporary file closes every reader |
| WorkerProcess.NeighbourIsLost | document-worker/src/confer_document_worker/application/DocumentSession.py:65-69 | a script of two documents, the first with a raising reader, after which the second is never closed |
| PdfScan.WorkerCount | document-worker/src/confer_document_worker/extraction/pdf/PdfExtractor.py:96-101 | at least one worker, and no more than allowed or than pages |
| PdfScan.WorkersAreFew | document-worker/src/confer_document_worker/extraction/pdf/PdfExtractor.py:96-101 | how many workers: one for a short document without a configured number, else the greatest number that is at most the configured one, or that of the processors, the allowed one and the pages, and one at least |
| PdfScan.PageRanges | document-worker/src/confer_document_worker/extraction/pdf/PdfExtractor.py:77-81 | at most as many ranges as workers, each non-empty, covering the pages without gap or overlap, all but the last of the same size, the pages per worker rounded up |
| PdfScan.ScanPages | document-worker/src/confer_document_worker/extraction/pdf/PdfExtractor.py:71-94 | whatever the workers, the drafts of a sequential scan |
| PdfOcr.SubmitAll | document-worker/src/confer_document_worker/extraction/pdf/PdfOcrProcessor.py:82-93 | never more than the permitted number of jobs between submission and resolution |
| PdfOcr.CompleteIffDistinct | document-worker/src/confer_document_worker/extraction/pdf/PdfOcrProcessor.py:221-227 | all pages are filled if and only if no two drafts claim the same page |
| PdfOcr.Process | document-worker/src/confer_document_worker/extraction/pdf/PdfOcrProcessor.py:50-98 | succeeds if and only if no page has an obstacle and page numbers are distinct; each page then has the number and size of its draft, with what was scanned on a native page, nothing on a blank one and what is recognized on any other; an error names what stands in the way; every job submitted and resolved once, in order, within the bound |
| PdfOcr.ExtractPages | document-worker/src/confer_document_worker/extraction/pdf/PdfExtractor.py:62-69 | scanning and recognition together give page by page what a sequential map gives, and fail exactly when some page does |
| OfficeMapper.RegionIdTells | document-worker/src/confer_document_worker/extraction/office/DoclingDocumentMapper.py:187-190 | a region id tells page, type and number |
| OfficeMapper.RegionIdReads | document-worker/src/confer_document_worker/extraction/office/DoclingDocumentMapper.py:187-191 | a region id is the page from 1 and the number as decimal numerals around the name of the type |
| OfficeMapper.IdsApart | document-worker/src/confer_document_worker/extraction/office/DoclingDocumentMapper.py:178-196 | no two regions of a document have the same id |
| OfficeMapper.KeptIff | document-worker/src/confer_document_worker/extraction/office/DoclingDocumentMapper.py:198-222 | the image of a picture is kept if and only if it fits the limit for one image and all that the images kept before left of the budget |
| OfficeMapper.MapItem | document-worker/src/confer_document_worker/extraction/office/DoclingDocumentMapper.py:56-109 | one turn adds exactly the block, region and outline entry the item contributes, with the next number, or rejects it for its first error |
| OfficeMapper.TurnKeeps | document-worker/src/confer_document_worker/extraction/office/DoclingDocumentMapper.py:56-109 | one turn keeps the texts, types and numbers of every page, the outline and the total size |
| OfficeMapper.MapDocument | document-worker/src/confer_document_worker/extraction/office/DoclingDocumentMapper.py:27-132 | succeeds if and only if there are not too many pages and every item is acceptable; yields containers from 0 on that hold, each in order, exactly the blocks and regions of the items on its page, told from the items alone, with their bounds, and an outline of the headings with text; every region numbered, the kept images within the budget |
| OfficeMapper.DocumentIsMapped | document-worker/src/confer_document_worker/extraction/office/DoclingDocumentMapper.py:56-132 | what the contributions of the items make is what the items themselves say: page number p in container p - 1, no place or no page above 0 in container 0, each text, type and bounds, and items without a place stacked |
| OfficeMapper.BlockOfItem | document-worker/src/confer_document_worker/extraction/office/DoclingDocumentMapper.py:56-109 | an item that gives text has its block in the container of its page |
| OfficeMapper.ItemOfBlock | document-worker/src/confer_document_worker/extraction/office/DoclingDocumentMapper.py:56-109 | every block of a container is that of an item on its page |
| OfficeMapper.Reaches | document-worker/src/confer_document_worker/extraction/office/DoclingDocumentMapper.py:111-114 | how many containers there are: up to the greatest page of the document or of an item, and one when there is neither; the greatest page of the document when every item names one of its pages |
| OfficeMapper.ErrorTells | document-worker/src/confer_document_worker/extraction/office/DoclingDocumentMapper.py:56-109 | the error is that of the first item that is not acceptable: its page, else the empty image it keeps, else the level of its heading |
| OfficeMapper.StackedExtent | document-worker/src/confer_document_worker/extraction/office/DoclingDocumentMapper.py:61-64 | on a page where no item has a place the artifact gives every region the extent of exactly one block, the one it was made with |
| OfficeMapper.DocumentIsStorable | document-worker/src/confer_document_worker/extraction/office/DoclingDocumentMapper.py:115-132 | such a document meets what the artifact tables require: contiguous numbers, distinct region ids, text in every block |

## Left out

- SQLite, the index ranking, zstd and temporary files: tables are sequences and maps of rows, and phrase matching is an arbitrary predicate of a row.
- The ORDER BY and LIMIT of the region query.
- ArtifactWriter.WriteContent: leaves out the columns that are copied without being computed with (bounds, size, kind, label, source, confidence, type and asset), because nothing can go wrong with them but a swap of columns.
- JSON, base64, SHA-256, SHA-384, SHA-512 and the TDX quote: abstract functions with a stated round trip or injectivity; a header that already has a `payloads` key is not modelled.
- Rasterization.BoundedScale: states its result over real numbers with any square root function, because rounding of floating-point numbers is not modelled; non-finite dimensions do not exist there.
- Strings are sequences of Unicode scalar values; text with lone surrogates, which Python cannot encode, is not modelled.
- SearchQueries.MatchQuery: assumes that the quotation mark is not a word character (`PhraseSpellsRuns`: nor is the blank) and leaves case folding and the other word characters abstract, because Unicode tables fix them.
- Listener.Boot.Serve: the start-up reads (instance id, uptime, binding the port) are one flag, because each only ends the start; the time limits of reads and writes and the parsing of the request text are parameters.
- OfficeMapper.MapDocument: takes the bounds of an item as given and leaves page sizes out, because they are floating-point geometry.
- PdfOcr.Process: leaves out which regions a recognized page gets, because the test for tables and the confidence are floating-point heuristics; jobs are resolved in the order the source waits for them.
- WorkerProcess.Worker.Run: what an extraction does is its outcome only; whatever is closed for a frame after its response counts as closed at the end of the frame.
- ArtifactReader.ReadThrough: is the loop of a caller, which the reader leaves to whoever pages through a document.
- ProtocolCodec.Write: a payload file that someone else truncates while it is written is not modelled.
- ArtifactChunks.Write: builds on one connection; the metadata that are copied (digest, media type, title), compression, the copy to the destination and the length returned for it are not modelled.
- Request decoding, presenter field copying, the error reporter, archive limits and media-type routing: checks of one branch each.
- GPT parsing, mcopy, sfdisk, systemd units, shell scripts, the socket relay and build files: input, output and configuration.
- The conversion of CSV to Markdown: its escaping cannot be undone, so there is no round trip to prove.
