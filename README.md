# markdown-rag-mcp: chunking and result formatting

This project models the pure logic of a Markdown retrieval server in Dafny.
Before they go into a vector store, Markdown documents are cut into chunks.
Each chunk carries its file name and its section heading. When the server
answers a `search_knowledge` request, it turns the store's hits into ranked
results.

The project models three pieces of the source:

- **The line chunker** (`chunkMarkdown` in `src/ingest.ts`). The document is
  split at `"\n"` and the lines are gathered into a buffer.
  - A heading line (`^#{1,6}\s`) closes a buffer that holds text, and its
    text becomes the current heading.
  - A buffer that reaches `chunkSize` characters is cut after the line that
    filled it.
  - Whatever is left is emitted at the end, unless it is blank.

  `Ingest.ChunkMarkdown` is the loop itself. It is proved equal to the fold
  `Ingest.Chunking`, and `IngestProperties` proves what that fold
  guarantees. The file name stored for a path is `Ingest.Basename`.
- **The heading propagation** (`chunkMarkdown` in `src/ingest_markdown.ts`).
  An external splitter produces a sequence of text segments, which is an
  input here.
  - In each segment, the first match of `/^#{1,6}\s+(.+?)$/m` sets the
    current heading to its trimmed capture.
  - Every segment becomes one chunk with the heading current at that point.

  The regular expression is modelled exactly as ECMAScript evaluates it:
  `MatchAt` tries one position, `FirstMatch` scans from the left, and
  `FirstMatchIsPreferredCandidate` proves the result is the leftmost match
  in backtracking order.
- **The `search_knowledge` handler** (`src/server.ts`). Hits are numbered
  from 1. The source is shown as `filename` or `filename > heading`, and
  content passes through unchanged. A failure of the embedding model or of
  the store becomes an `isError` response with the text `"Error: "` followed
  by what was thrown.

The shared text operations are in `JsText`: ECMAScript whitespace, `trim`,
and `split` on one character with the `join` it inverts (`LastIndexOf` is
the helper `split` is defined with). The heading marker both chunkers use
is in `Markdown`, and the records are in `Records`.

Some behaviour of the code is easy to overlook, and the model keeps it:

- Only the latest heading is recorded. There is no stack of enclosing
  headings joined with `" > "`.
- In `src/ingest_markdown.ts`, only the first heading match in a segment
  counts; later headings in the same segment are ignored.
- Segments are not filtered: an empty or blank segment still becomes a
  chunk.
- A size cut can emit a chunk whose content is empty. This happens when a
  buffer of only whitespace reaches `chunkSize`.
- `search_knowledge` takes only a query and a limit. Results are not
  filtered by repository or by anything else.

## Model

| member | source | states |
|---|---|---|
| Ingest.ChunkMarkdown | src/ingest.ts:13-58 | The loop over the lines returns exactly the chunks of the fold `Chunking`, so every property proved of `Chunking` holds of what the loop returns |
| Ingest.HeadingLineRecognition | src/ingest.ts:22-32 | A line is a heading line exactly when it starts with 1 to 6 `#` and a whitespace character; its heading text is the trimmed rest after that character |
| Ingest.LastHeadingIndex | src/ingest.ts:18-33 | The position of the last heading line: it is a heading line and no line after it is one, or -1 when no line is |
| Ingest.Basename | src/ingest.ts:83 | A path without `/` or ending in `/` is kept whole; otherwise the result is the non-empty text after the last `/` and holds no `/` |
| IngestProperties.ChunksCarryFilename | src/ingest.ts:25-28 | Every emitted chunk carries exactly the given file name |
| IngestProperties.ChunksCoverDocument | src/ingest.ts:15-55 | The chunks are cut from consecutive runs of whole lines in document order, all lines are used except a blank remainder, and each chunk's content is the trim of its run's text |
| IngestProperties.ChunkSizeBound | src/ingest.ts:35-45 | Before its last line was added, a chunk's buffer was shorter than `chunkSize`, so a chunk exceeds `chunkSize` by at most its last line |
| IngestProperties.HeadingLineOpensChunk | src/ingest.ts:22-31 | Within a chunk, every line before a heading line is blank, and no such line is itself a heading line |
| IngestProperties.ChunkHeadingIsLatest | src/ingest.ts:18-33 | A chunk's heading is the text of the last heading line at or before the chunk's final line, or "" when there is none |
| IngestProperties.BlankChunksComeFromSizeCuts | src/ingest.ts:24-45 | A chunk with empty content comes from a buffer that had reached `chunkSize`; chunks cut at a heading or at the end are never empty |
| IngestProperties.ShortBlankInputHasNoChunks | src/ingest.ts:38-55 | Whitespace-only input with length + 1 below `chunkSize` gives no chunks |
| IngestProperties.SizeCutEmitsEmptyChunk | src/ingest.ts:38-45 | A one-line blank input that fills the buffer gives exactly one chunk, with empty content and heading |
| IngestProperties.RunInv | src/ingest.ts:20-46 | After any prefix of the lines, the loop state satisfies the invariant: the chunks fit their runs, the runs and the buffer cover the prefix, and the heading is the latest one |
| JsText.Trim | src/ingest.ts:24 | Trimming never lengthens a string, gives "" exactly for whitespace-only input, and leaves no whitespace at either end |
| JsText.TrimIsSlice | src/ingest.ts:24-32 | The trimmed string is a slice of the input with only whitespace before it and only whitespace after it; with `Trim`'s contract this fixes the result |
| JsText.JoinOfSplit | src/ingest.ts:15 | Joining the parts of `split("\n")` with `"\n"` gives back the text |
| JsText.SplitOfJoin | src/ingest.ts:15 | Splitting a join of parts that contain no separator gives back those parts |
| JsText.Split | src/ingest.ts:15 | `split` on a character gives at least one part, and no part contains the separator |
| JsText.LastIndexOf | src/ingest.ts:83 | The index of the last occurrence when there is one, with no occurrence after it; -1 exactly when there is none |
| Markdown.MarkerAtIsRegexMatch | src/ingest.ts:22 | The marker test holds exactly when, for some count from 1 to 6, that many `#` are followed by a whitespace character |
| Markdown.HashRun | src/ingest_markdown.ts:22 | The length of the run of `#` at a position: each of those characters is `#` and the next one is not |
| IngestMarkdown.FirstMatchIsPreferredCandidate | src/ingest_markdown.ts:22 | No match exactly when no position, `#` count, whitespace run and capture could match; otherwise the match is a candidate at the first such line start, with the longest whitespace run and then the shortest capture |
| IngestMarkdown.FirstMatchFromIsFirst | src/ingest_markdown.ts:22 | The scan returns the attempt at the first position where one succeeds, and fails only when every attempt from the start position fails |
| IngestMarkdown.MatchAtIsCandidate | src/ingest_markdown.ts:22 | A successful attempt at a position is a candidate match there, with the whole `#` run as its marker |
| IngestMarkdown.CandidateIsMatched | src/ingest_markdown.ts:22 | Any candidate at a position makes the attempt there succeed, with a whitespace run at least as long and, when equally long, the same capture |
| IngestMarkdown.CaptureWithinLine | src/ingest_markdown.ts:22-24 | The capture is a non-empty slice of the segment that contains no line terminator |
| IngestMarkdown.SameLineHeading | src/ingest_markdown.ts:22-24 | On a single heading line, the propagated heading equals the line chunker's heading text, or that text is "" when the expression finds nothing |
| IngestMarkdown.HeadingFromNextLine | src/ingest_markdown.ts:22-24 | `\s+` crosses line breaks: the segment `"#\n\nIntro"` sets the heading `"Intro"` |
| IngestMarkdown.ChunkMarkdown | src/ingest_markdown.ts:16-34 | The loop over the segments returns exactly the fold `Propagated`: segment `i` is paired with the heading of the latest match among segments `0..i` |
| IngestMarkdown.OneChunkPerSegment | src/ingest_markdown.ts:18-31 | One chunk per segment, in order, with the segment's text unchanged and the given file name |
| IngestMarkdown.MatchSetsHeading | src/ingest_markdown.ts:22-25 | A segment with a match gets its own trimmed capture as its heading |
| IngestMarkdown.NoMatchCarriesHeading | src/ingest_markdown.ts:16-30 | A segment without a match keeps the heading of the chunk before it |
| IngestMarkdown.HeadingEmptyBeforeFirstMatch | src/ingest_markdown.ts:16 | Until the first segment with a match, the heading is "" |
| IngestMarkdown.HeadingFromLatestMatch | src/ingest_markdown.ts:18-31 | A chunk's heading is the capture of the latest segment at or before it that has a match |
| IngestMarkdown.HeadingIsSomeCapture | src/ingest_markdown.ts:16-31 | Every heading is "" or the trimmed capture of the segment itself or of an earlier one |
| Server.SourceShowsHeading | src/server.ts:54 | The source starts with the file name; it is the bare file name exactly when the heading is absent or empty, and otherwise `" > "` and the heading follow it |
| Server.SourceDistinguishesHeadings | src/server.ts:54 | For one file, two shown headings give the same source only when they are equal |
| Server.FormattedInOrder | src/server.ts:51-56 | One result per hit, in the store's order: result `i` has rank `i + 1`, the hit's rendered score, its source, and its content unchanged |
| Server.RanksOneToN | src/server.ts:51-52 | The ranks run from 1 to the number of hits and strictly increase |
| Server.FormatPrefix | src/server.ts:51-56 | Formatting the first `n` hits gives the first `n` formatted results |
| Server.SearchKnowledgeOutcome | src/server.ts:44-78 | The response is an error exactly when embedding or search failed, and then its text is `"Error: "` followed by the first failure; otherwise it echoes the query with the formatted hits |
| Server.ErrorTextStartsWithPrefix | src/server.ts:73-77 | An error response is flagged `isError`, and its text is `"Error: "` followed by the thrown value's text |

## Left out

- The text splitter of `src/ingest_markdown.ts` (line 13) is a library call, so its output segments are an input of the model. Its 200-character overlap is not modelled.
- The services in `src/services/` (the Chroma and Qdrant clients, the embedding model) are external. They appear only as function parameters of `Server.SearchKnowledge`.
- `score.toFixed(4)` (`src/server.ts:53`) formats a floating-point number. It is the parameter `fixed`.
- `JSON.stringify` of the success payload (`src/server.ts:62-69`) is modelled as the value it serialises, `Server.Payload`.
- The string form of a thrown value (`${error}`) is taken as given: a failure carries its text.
- Asynchrony, logging, the Express routes, the MCP transports and their session map (`src/server.ts:83-123`) are I/O and concurrency.
- In `main` of `src/ingest.ts`, only line 83 is modelled. File reading, argument handling, storage and `process.exit` are I/O.
- The `zod` validation of the tool's arguments is not modelled. A `limit` is an integer, or absent.
- Lengths count Unicode scalar values (Dafny `char`), while JavaScript counts UTF-16 code units. The two differ for characters outside the Basic Multilingual Plane.
- `chunkSize` is an integer here, while JavaScript accepts any number. Buffer lengths are integers, so a fractional size behaves like the next integer up.
- `src/constants.ts`, `src/index.ts` and `tsup.config.ts` hold only configuration and wiring.
