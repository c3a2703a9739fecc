/**
  The line-based Markdown chunker of `src/ingest.ts` and the file-name rule
  of its `add` command.

  The chunker walks the document line by line, accumulating lines in a
  buffer. A heading line closes the pending buffer when that holds any
  non-whitespace text, and becomes the current heading; a buffer that has
  reached the chunk size is cut straight after the line that filled it; what
  remains at the end is emitted when it is not blank. Every chunk is tagged
  with the file name and the heading current when it was emitted.

  `Run` is the loop as a left fold over the lines and `Chunking` the whole
  function; the method `ChunkMarkdown` is the loop itself, proved equal to
  them. The fold state records, beside the source's three variables, the
  lines each emitted chunk was cut from (`runs`) and the lines in the buffer
  (`pending`); the source does not keep these, they exist to state what the
  chunks are made of.
*/
module Ingest {
  import opened JsText
  import opened Markdown
  import opened Records

  /** The default `chunkSize` parameter. */
  const DefaultChunkSize: int := 1000

  /** `line.match(/^#{1,6}\s/)`: without the `m` flag `^` is the start of the line. */
  predicate IsHeadingLine(line: string) {
    MarkerAt(line, 0)
  }

  /** `line.replace(/^#{1,6}\s/, "")`: the marker and the one whitespace character after it go. */
  function StripMarker(line: string): string {
    if IsHeadingLine(line) then line[HashRun(line, 0) + 1..] else line
  }

  /** The text stored as the current heading: `line.replace(...).trim()`. */
  function HeadingText(line: string): string {
    Trim(StripMarker(line))
  }

  /** Heading lines are exactly the regular expression's matches, and their text follows the match. */
  lemma HeadingLineRecognition(line: string)
    ensures IsHeadingLine(line) <==>
      exists k :: 1 <= k <= 6 && k < |line| && HashesThenSpace(line, 0, k)
    ensures forall k :: 1 <= k <= 6 && k < |line| && HashesThenSpace(line, 0, k) ==>
      HeadingText(line) == Trim(line[k + 1..])
  {
    MarkerAtIsRegexMatch(line, 0);
    forall k | 1 <= k <= 6 && k < |line| && HashesThenSpace(line, 0, k)
      ensures HeadingText(line) == Trim(line[k + 1..])
    {
      HashRunBeforeSpace(line, k);
    }
  }

  lemma HashRunBeforeSpace(line: string, k: nat)
    requires 1 <= k <= 6 && k < |line| && HashesThenSpace(line, 0, k)
    ensures HashRun(line, 0) == k && IsHeadingLine(line)
    ensures HeadingText(line) == Trim(line[k + 1..])
  {
    assert line[k] != '#';
    var n := HashRun(line, 0);
    assert n == k;
    assert MarkerAt(line, 0);
    assert StripMarker(line) == line[k + 1..];
  }

  /** A heading line is never blank: it starts with `#`. */
  lemma HeadingLineNotBlank(line: string)
    requires IsHeadingLine(line)
    ensures !IsBlank(line)
  {
    assert line[0] == '#';
    assert !IsSpace(line[0]);
  }

  /** The text the loop adds to the buffer for these lines: each line and a newline. */
  function Block(lines: seq<string>): string
  {
    if lines == [] then "" else Block(lines[..|lines| - 1]) + lines[|lines| - 1] + "\n"
  }

  /** The runs of lines laid end to end. */
  function Flatten(runs: seq<seq<string>>): seq<string>
  {
    if runs == [] then [] else Flatten(runs[..|runs| - 1]) + runs[|runs| - 1]
  }

  /** The position of the last heading line, or -1 when there is none. */
  function LastHeadingIndex(lines: seq<string>): (k: int)
    ensures -1 <= k < |lines|
    ensures k >= 0 ==> IsHeadingLine(lines[k])
    ensures forall i :: k < i < |lines| ==> !IsHeadingLine(lines[i])
  {
    if lines == [] then -1
    else if IsHeadingLine(lines[|lines| - 1]) then |lines| - 1
    else LastHeadingIndex(lines[..|lines| - 1])
  }

  /** The text of the last heading line, or "" when no heading line has been seen. */
  function LastHeading(lines: seq<string>): string
  {
    var k := LastHeadingIndex(lines);
    if k < 0 then "" else HeadingText(lines[k])
  }

  /**
    The loop's state: the chunks emitted (`chunks`), the buffer
    (`currentChunk`) and the current heading (`currentHeading`), with the lines
    behind each chunk and behind the buffer.
  */
  datatype Acc = Acc(chunks: seq<Chunk>, buf: string, heading: string, runs: seq<seq<string>>, pending: seq<string>)

  const Start := Acc([], "", "", [], [])

  /** `chunks.push({content: currentChunk.trim(), filename, heading: currentHeading}); currentChunk = ""`. */
  function Emit(a: Acc, filename: string): Acc
  {
    a.(chunks := a.chunks + [Chunk(Trim(a.buf), filename, a.heading)], buf := "",
       runs := a.runs + [a.pending], pending := [])
  }

  /** One pass of the loop body for `line`. */
  function Step(a: Acc, line: string, filename: string, chunkSize: int): Acc
  {
    CutIfFull(Append(AtHeading(a, line, filename), line), filename, chunkSize)
  }

  /**
    The heading branch: a heading line closes a buffer that is not blank and
    becomes the current heading.
  */
  function AtHeading(a: Acc, line: string, filename: string): Acc
  {
    if IsHeadingLine(line) then
      (if Trim(a.buf) != "" then Emit(a, filename) else a).(heading := HeadingText(line))
    else a
  }

  /** `currentChunk += line + "\n"`. */
  function Append(a: Acc, line: string): Acc
  {
    a.(buf := a.buf + line + "\n", pending := a.pending + [line])
  }

  /** The size branch: a buffer of at least `chunkSize` characters is emitted, blank or not. */
  function CutIfFull(a: Acc, filename: string, chunkSize: int): Acc
  {
    if |a.buf| >= chunkSize then Emit(a, filename) else a
  }

  /** The loop over `lines`, from the initial state. */
  function Run(lines: seq<string>, filename: string, chunkSize: int): Acc
  {
    if lines == [] then Start
    else Step(Run(lines[..|lines| - 1], filename, chunkSize), lines[|lines| - 1], filename, chunkSize)
  }

  /** The statement after the loop: what remains is emitted when it is not blank. */
  function Finish(a: Acc, filename: string): Acc
  {
    if Trim(a.buf) != "" then Emit(a, filename) else a
  }

  /** The whole of `chunkMarkdown(content, filename, chunkSize)`, with the bookkeeping. */
  function Chunking(content: string, filename: string, chunkSize: int): Acc
  {
    Finish(Run(Split(content, '\n'), filename, chunkSize), filename)
  }

  /** `chunkMarkdown` in `src/ingest.ts`. */
  method ChunkMarkdown(content: string, filename: string, chunkSize: int := DefaultChunkSize)
    returns (chunks: seq<Chunk>)
    ensures chunks == Chunking(content, filename, chunkSize).chunks
  {
    chunks := [];
    var lines := Split(content, '\n');
    var currentChunk := "";
    var currentHeading := "";
    for i := 0 to |lines|
      invariant Run(lines[..i], filename, chunkSize).chunks == chunks
      invariant Run(lines[..i], filename, chunkSize).buf == currentChunk
      invariant Run(lines[..i], filename, chunkSize).heading == currentHeading
    {
      RunSnoc(lines, i, filename, chunkSize);
      ghost var before := Run(lines[..i], filename, chunkSize);
      var line := lines[i];
      if IsHeadingLine(line) {
        if Trim(currentChunk) != "" {
          chunks := chunks + [Chunk(Trim(currentChunk), filename, currentHeading)];
          currentChunk := "";
        }
        currentHeading := HeadingText(line);
      }
      ghost var headed := AtHeading(before, line, filename);
      assert headed.chunks == chunks && headed.buf == currentChunk && headed.heading == currentHeading;
      currentChunk := currentChunk + line + "\n";
      ghost var appended := Append(headed, line);
      assert appended.chunks == chunks && appended.buf == currentChunk && appended.heading == currentHeading;
      if |currentChunk| >= chunkSize {
        chunks := chunks + [Chunk(Trim(currentChunk), filename, currentHeading)];
        currentChunk := "";
      }
    }
    assert lines[..|lines|] == lines;
    if Trim(currentChunk) != "" {
      chunks := chunks + [Chunk(Trim(currentChunk), filename, currentHeading)];
    }
  }

  /** The loop after one more line is one more step. */
  lemma RunSnoc(lines: seq<string>, i: nat, filename: string, chunkSize: int)
    requires i < |lines|
    ensures Run(lines[..i + 1], filename, chunkSize) == Step(Run(lines[..i], filename, chunkSize), lines[i], filename, chunkSize)
  {
    assert lines[..i + 1][..i] == lines[..i];
  }

  /**
    `filePath.split("/").pop() || filePath`: the text after the last `/`, or
    the whole path when that text is empty.
  */
  function Basename(filePath: string): (filename: string)
    ensures '/' !in filePath ==> filename == filePath
    ensures filePath != [] && filePath[|filePath| - 1] == '/' ==> filename == filePath
    ensures '/' in filePath && filePath[|filePath| - 1] != '/' ==>
      && 0 < |filename| < |filePath|
      && filename == filePath[|filePath| - |filename|..]
      && filePath[|filePath| - |filename| - 1] == '/'
      && '/' !in filename
  {
    var parts := Split(filePath, '/');
    var last := parts[|parts| - 1];
    if last != "" then last else filePath
  }
}
