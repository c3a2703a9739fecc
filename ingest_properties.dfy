/**
  What `chunkMarkdown` in `src/ingest.ts` guarantees about its chunks:
  coverage of the document by whole lines, the file name, the size bound, the
  place of heading lines inside a chunk, the heading tag, and when a chunk can
  be blank. Everything is proved about the fold `Ingest.Chunking`, which the
  method `Ingest.ChunkMarkdown` is proved to compute.
*/
module IngestProperties {
  import opened JsText
  import opened Records
  import opened Ingest

  // ---------------------------------------------------------------------
  // Facts about the buffer text and the line bookkeeping

  lemma {:induction false} BlockLength(lines: seq<string>)
    ensures |Block(lines)| >= |lines|
    ensures Block(lines) == "" <==> lines == []
  {
    if lines != [] {
      BlockLength(lines[..|lines| - 1]);
    }
  }

  lemma BlockSnoc(lines: seq<string>, line: string)
    ensures Block(lines + [line]) == Block(lines) + line + "\n"
  {
    assert (lines + [line])[..|lines|] == lines;
  }

  /** The lines of a blank buffer are blank. */
  lemma {:induction false} BlankBlockLines(lines: seq<string>)
    requires IsBlank(Block(lines))
    ensures forall k :: 0 <= k < |lines| ==> IsBlank(lines[k])
  {
    if lines != [] {
      var init := lines[..|lines| - 1];
      var last := lines[|lines| - 1];
      BlankConcat(Block(init) + last, "\n");
      BlankConcat(Block(init), last);
      BlankBlockLines(init);
    }
  }

  /** Blank lines make a blank buffer. */
  lemma {:induction false} BlankLinesBlock(lines: seq<string>)
    requires forall k :: 0 <= k < |lines| ==> IsBlank(lines[k])
    ensures IsBlank(Block(lines))
  {
    if lines != [] {
      var init := lines[..|lines| - 1];
      BlankLinesBlock(init);
      BlankConcat(Block(init), lines[|lines| - 1]);
      BlankConcat(Block(init) + lines[|lines| - 1], "\n");
    }
  }

  /** The buffer text of the lines of `content` is `content` and one more newline. */
  lemma {:induction false} BlockOfLines(content: string)
    ensures Block(Split(content, '\n')) == content + "\n"
    decreases |content|
  {
    var k := LastIndexOf(content, '\n');
    if k >= 0 {
      var front := Split(content[..k], '\n');
      BlockSnoc(front, content[k + 1..]);
      BlockOfLines(content[..k]);
      assert content == content[..k] + "\n" + content[k + 1..];
    }
  }

  lemma FlattenSnoc(runs: seq<seq<string>>, run: seq<string>)
    ensures Flatten(runs + [run]) == Flatten(runs) + run
  {
    assert (runs + [run])[..|runs|] == runs;
  }

  lemma LastHeadingSnoc(lines: seq<string>, line: string)
    ensures LastHeading(lines + [line]) ==
      if IsHeadingLine(line) then HeadingText(line) else LastHeading(lines)
  {
    assert (lines + [line])[..|lines|] == lines;
  }

  // ---------------------------------------------------------------------
  // The loop invariant

  /** No line of `run` before a heading line holds any non-whitespace text. */
  ghost predicate HeadingFirst(run: seq<string>) {
    forall i, k :: 0 <= k < i < |run| && IsHeadingLine(run[i]) ==> IsBlank(run[k])
  }

  /** What chunk `c`, cut from the lines `run` that follow the lines `before`, satisfies. */
  ghost predicate ChunkFits(c: Chunk, run: seq<string>, before: seq<string>, filename: string, chunkSize: int) {
    && run != []
    && c.content == Trim(Block(run))
    && c.filename == filename
    && c.heading == LastHeading(before + run)
    && (|run| == 1 || |Block(run[..|run| - 1])| < chunkSize)
    && HeadingFirst(run)
    && (c.content == "" ==> |Block(run)| >= chunkSize)
  }

  ghost predicate ChunksFit(chunks: seq<Chunk>, runs: seq<seq<string>>, filename: string, chunkSize: int) {
    && |runs| == |chunks|
    && forall j :: 0 <= j < |chunks| ==> ChunkFits(chunks[j], runs[j], Flatten(runs[..j]), filename, chunkSize)
  }

  /** The fold state after the lines `lines`, before the size check resets the buffer. */
  ghost predicate Tracks(a: Acc, lines: seq<string>, filename: string, chunkSize: int) {
    && ChunksFit(a.chunks, a.runs, filename, chunkSize)
    && Flatten(a.runs) + a.pending == lines
    && a.buf == Block(a.pending)
    && a.heading == LastHeading(lines)
    && HeadingFirst(a.pending)
  }

  /** The loop invariant after the lines `lines`. */
  ghost predicate Inv(a: Acc, lines: seq<string>, filename: string, chunkSize: int) {
    && Tracks(a, lines, filename, chunkSize)
    && (a.pending == [] || |a.buf| < chunkSize)
  }

  lemma ChunksFitSnoc(chunks: seq<Chunk>, runs: seq<seq<string>>, c: Chunk, run: seq<string>, filename: string, chunkSize: int)
    requires ChunksFit(chunks, runs, filename, chunkSize)
    requires ChunkFits(c, run, Flatten(runs), filename, chunkSize)
    ensures ChunksFit(chunks + [c], runs + [run], filename, chunkSize)
  {
    forall j | 0 <= j < |chunks + [c]|
      ensures ChunkFits((chunks + [c])[j], (runs + [run])[j], Flatten((runs + [run])[..j]), filename, chunkSize)
    {
      FitAfterSnoc(chunks, runs, c, run, filename, chunkSize, j);
    }
  }

  lemma FitAfterSnoc(chunks: seq<Chunk>, runs: seq<seq<string>>, c: Chunk, run: seq<string>, filename: string, chunkSize: int, j: nat)
    requires ChunksFit(chunks, runs, filename, chunkSize)
    requires ChunkFits(c, run, Flatten(runs), filename, chunkSize)
    requires j < |chunks + [c]|
    ensures ChunkFits((chunks + [c])[j], (runs + [run])[j], Flatten((runs + [run])[..j]), filename, chunkSize)
  {
    if j < |chunks| {
      FitKeptAfterSnoc(chunks, runs, c, run, filename, chunkSize, j);
    } else {
      FitAddedBySnoc(chunks, runs, c, run, filename, chunkSize, j);
    }
  }

  lemma FitKeptAfterSnoc(chunks: seq<Chunk>, runs: seq<seq<string>>, c: Chunk, run: seq<string>, filename: string, chunkSize: int, j: nat)
    requires ChunksFit(chunks, runs, filename, chunkSize)
    requires j < |chunks|
    ensures ChunkFits((chunks + [c])[j], (runs + [run])[j], Flatten((runs + [run])[..j]), filename, chunkSize)
  {
    var cj := chunks[j];
    assert ChunkFits(cj, runs[j], Flatten(runs[..j]), filename, chunkSize);
    assert (runs + [run])[..j] == runs[..j];
    FitsSame(cj, runs[j], Flatten(runs[..j]), (chunks + [c])[j], (runs + [run])[j], Flatten((runs + [run])[..j]), filename, chunkSize);
  }

  lemma FitAddedBySnoc(chunks: seq<Chunk>, runs: seq<seq<string>>, c: Chunk, run: seq<string>, filename: string, chunkSize: int, j: nat)
    requires |chunks| == |runs| == j
    requires ChunkFits(c, run, Flatten(runs), filename, chunkSize)
    ensures ChunkFits((chunks + [c])[j], (runs + [run])[j], Flatten((runs + [run])[..j]), filename, chunkSize)
  {
    assert (runs + [run])[..j] == runs;
    FitsSame(c, run, Flatten(runs), (chunks + [c])[j], (runs + [run])[j], Flatten((runs + [run])[..j]), filename, chunkSize);
  }

  lemma FitsSame(c: Chunk, run: seq<string>, before: seq<string>, c': Chunk, run': seq<string>, before': seq<string>, filename: string, chunkSize: int)
    requires ChunkFits(c, run, before, filename, chunkSize)
    requires c' == c && run' == run && before' == before
    ensures ChunkFits(c', run', before', filename, chunkSize)
  {
  }

  /** Emitting the buffer turns the pending lines into the run of the new chunk. */
  lemma EmitTracks(a: Acc, lines: seq<string>, filename: string, chunkSize: int)
    requires Tracks(a, lines, filename, chunkSize)
    requires a.pending != []
    requires |a.pending| == 1 || |Block(a.pending[..|a.pending| - 1])| < chunkSize
    requires Trim(a.buf) != "" || |a.buf| >= chunkSize
    ensures Tracks(Emit(a, filename), lines, filename, chunkSize)
    ensures Emit(a, filename).pending == []
  {
    var c := Chunk(Trim(a.buf), filename, a.heading);
    assert ChunkFits(c, a.pending, Flatten(a.runs), filename, chunkSize);
    ChunksFitSnoc(a.chunks, a.runs, c, a.pending, filename, chunkSize);
    FlattenSnoc(a.runs, a.pending);
  }

  lemma {:induction false} BlockPrefixShorter(lines: seq<string>)
    requires lines != []
    ensures |Block(lines[..|lines| - 1])| < |Block(lines)|
  {
  }

  /** The heading branch leaves the buffer blank before a heading line and updates the heading. */
  lemma AtHeadingInv(a: Acc, lines: seq<string>, line: string, filename: string, chunkSize: int)
    requires Inv(a, lines, filename, chunkSize)
    ensures var a1 := AtHeading(a, line, filename);
      && ChunksFit(a1.chunks, a1.runs, filename, chunkSize)
      && Flatten(a1.runs) + a1.pending == lines
      && a1.buf == Block(a1.pending)
      && HeadingFirst(a1.pending)
      && a1.heading == LastHeading(lines + [line])
      && (a1.pending == [] || |a1.buf| < chunkSize)
      && (IsHeadingLine(line) ==> forall k :: 0 <= k < |a1.pending| ==> IsBlank(a1.pending[k]))
  {
    LastHeadingSnoc(lines, line);
    if IsHeadingLine(line) {
      if Trim(a.buf) != "" {
        BlockLength(a.pending);
        BlockPrefixShorter(a.pending);
        EmitTracks(a, lines, filename, chunkSize);
      } else {
        BlankBlockLines(a.pending);
      }
    }
  }

  lemma HeadingFirstSnoc(run: seq<string>, line: string)
    requires HeadingFirst(run)
    requires IsHeadingLine(line) ==> forall k :: 0 <= k < |run| ==> IsBlank(run[k])
    ensures HeadingFirst(run + [line])
  {
    var run' := run + [line];
    forall i, k | 0 <= k < i < |run'| && IsHeadingLine(run'[i]) ensures IsBlank(run'[k]) {
      assert run'[k] == run[k];
      if i < |run| {
        assert run'[i] == run[i];
      }
    }
  }

  /** Appending the line keeps the bookkeeping and the heading-first shape of the buffer. */
  lemma AppendTracks(a1: Acc, lines: seq<string>, line: string, filename: string, chunkSize: int)
    requires ChunksFit(a1.chunks, a1.runs, filename, chunkSize)
    requires Flatten(a1.runs) + a1.pending == lines
    requires a1.buf == Block(a1.pending)
    requires HeadingFirst(a1.pending)
    requires a1.heading == LastHeading(lines + [line])
    requires IsHeadingLine(line) ==> forall k :: 0 <= k < |a1.pending| ==> IsBlank(a1.pending[k])
    ensures Tracks(Append(a1, line), lines + [line], filename, chunkSize)
  {
    var a2 := Append(a1, line);
    assert a2.chunks == a1.chunks && a2.runs == a1.runs && a2.heading == a1.heading;
    assert a2.pending == a1.pending + [line] && a2.buf == a1.buf + line + "\n";
    BlockSnoc(a1.pending, line);
    HeadingFirstSnoc(a1.pending, line);
    AppendAssoc(Flatten(a1.runs), a1.pending, line);
    assert ChunksFit(a2.chunks, a2.runs, filename, chunkSize);
  }

  lemma AppendAssoc(xs: seq<string>, ys: seq<string>, y: string)
    ensures xs + (ys + [y]) == (xs + ys) + [y]
  {
  }

  /** Before the line is appended the buffer is empty or shorter than `chunkSize`. */
  lemma AppendSize(a1: Acc, line: string, chunkSize: int)
    requires a1.buf == Block(a1.pending)
    requires a1.pending == [] || |a1.buf| < chunkSize
    ensures var a2 := Append(a1, line);
      && a2.pending != []
      && (|a2.pending| == 1 || |Block(a2.pending[..|a2.pending| - 1])| < chunkSize)
  {
    var a2 := Append(a1, line);
    assert a2.pending[..|a2.pending| - 1] == a1.pending;
  }

  /** The size branch restores the invariant: a full buffer is emitted. */
  lemma CutInv(a2: Acc, lines: seq<string>, filename: string, chunkSize: int)
    requires Tracks(a2, lines, filename, chunkSize)
    requires a2.pending != []
    requires |a2.pending| == 1 || |Block(a2.pending[..|a2.pending| - 1])| < chunkSize
    ensures Inv(CutIfFull(a2, filename, chunkSize), lines, filename, chunkSize)
  {
    if |a2.buf| >= chunkSize {
      EmitTracks(a2, lines, filename, chunkSize);
    }
  }

  /** One pass of the loop body keeps the invariant. */
  lemma StepInv(a: Acc, lines: seq<string>, line: string, filename: string, chunkSize: int)
    requires Inv(a, lines, filename, chunkSize)
    ensures Inv(Step(a, line, filename, chunkSize), lines + [line], filename, chunkSize)
  {
    var a1 := AtHeading(a, line, filename);
    AtHeadingInv(a, lines, line, filename, chunkSize);
    var a2 := Append(a1, line);
    AppendTracks(a1, lines, line, filename, chunkSize);
    assert Tracks(a2, lines + [line], filename, chunkSize);
    AppendSize(a1, line, chunkSize);
    assert a2.pending != [] && (|a2.pending| == 1 || |Block(a2.pending[..|a2.pending| - 1])| < chunkSize);
    CutInv(a2, lines + [line], filename, chunkSize);
    assert Step(a, line, filename, chunkSize) == CutIfFull(a2, filename, chunkSize);
  }

  lemma {:induction false} RunInv(lines: seq<string>, filename: string, chunkSize: int)
    ensures Inv(Run(lines, filename, chunkSize), lines, filename, chunkSize)
  {
    if lines == [] {
      assert Flatten([]) == [];
    } else {
      var init := lines[..|lines| - 1];
      assert init + [lines[|lines| - 1]] == lines;
      var a := Run(init, filename, chunkSize);
      RunInv(init, filename, chunkSize);
      StepInv(a, init, lines[|lines| - 1], filename, chunkSize);
      assert Run(lines, filename, chunkSize) == Step(a, lines[|lines| - 1], filename, chunkSize);
    }
  }

  /** What the finished fold satisfies: every line is in exactly one run or in the blank remainder. */
  ghost predicate Finished(a: Acc, lines: seq<string>, filename: string, chunkSize: int) {
    && ChunksFit(a.chunks, a.runs, filename, chunkSize)
    && Flatten(a.runs) + a.pending == lines
    && IsBlank(Block(a.pending))
  }

  lemma ChunkingFinished(content: string, filename: string, chunkSize: int)
    ensures Finished(Chunking(content, filename, chunkSize), Split(content, '\n'), filename, chunkSize)
  {
    var lines := Split(content, '\n');
    var a := Run(lines, filename, chunkSize);
    RunInv(lines, filename, chunkSize);
    if Trim(a.buf) != "" {
      BlockLength(a.pending);
      BlockPrefixShorter(a.pending);
      EmitTracks(a, lines, filename, chunkSize);
    }
  }

  // ---------------------------------------------------------------------
  // What chunkMarkdown guarantees

  /** Every chunk carries exactly the file name it was given. */
  lemma ChunksCarryFilename(content: string, filename: string, chunkSize: int)
    ensures forall c :: c in Chunking(content, filename, chunkSize).chunks ==> c.filename == filename
  {
    ChunkingFinished(content, filename, chunkSize);
  }

  /**
    Lines are never split: the chunks are cut from consecutive runs of whole
    lines, in document order, and all lines are used except a blank
    remainder. Each chunk is the trim of the text its run put in the buffer.
  */
  lemma ChunksCoverDocument(content: string, filename: string, chunkSize: int)
    ensures var r := Chunking(content, filename, chunkSize);
      && Block(Split(content, '\n')) == content + "\n"
      && |r.runs| == |r.chunks|
      && Flatten(r.runs) + r.pending == Split(content, '\n')
      && (forall j :: 0 <= j < |r.chunks| ==>
            r.runs[j] != [] && r.chunks[j].content == Trim(Block(r.runs[j])))
      && IsBlank(Block(r.pending))
  {
    BlockOfLines(content);
    ChunkingFinished(content, filename, chunkSize);
  }

  /**
    The size bound: before its last line was appended a chunk's buffer was
    shorter than `chunkSize`, so a chunk exceeds `chunkSize` by at most its
    last line.
  */
  lemma ChunkSizeBound(content: string, filename: string, chunkSize: int)
    ensures var r := Chunking(content, filename, chunkSize);
      && |r.runs| == |r.chunks|
      && forall j :: 0 <= j < |r.chunks| ==>
           && r.runs[j] != []
           && |r.chunks[j].content| <= |Block(r.runs[j])|
           && (|r.runs[j]| == 1 || |Block(r.runs[j][..|r.runs[j]| - 1])| < chunkSize)
           && (chunkSize >= 1 ==> |r.chunks[j].content| <= chunkSize + |r.runs[j][|r.runs[j]| - 1]|)
  {
    var r := Chunking(content, filename, chunkSize);
    assert |r.runs| == |r.chunks| && SizesBounded(r.chunks, r.runs, chunkSize) by {
      ChunkingFinished(content, filename, chunkSize);
      FittedSizes(r.chunks, r.runs, filename, chunkSize);
    }
  }

  /** The size facts of `ChunkSizeBound`, for chunks cut from `runs`. */
  ghost predicate SizesBounded(chunks: seq<Chunk>, runs: seq<seq<string>>, chunkSize: int)
    requires |runs| == |chunks|
  {
    forall j :: 0 <= j < |chunks| ==>
      && runs[j] != []
      && |chunks[j].content| <= |Block(runs[j])|
      && (|runs[j]| == 1 || |Block(runs[j][..|runs[j]| - 1])| < chunkSize)
      && (chunkSize >= 1 ==> |chunks[j].content| <= chunkSize + |runs[j][|runs[j]| - 1]|)
  }

  lemma FittedSizes(chunks: seq<Chunk>, runs: seq<seq<string>>, filename: string, chunkSize: int)
    requires ChunksFit(chunks, runs, filename, chunkSize)
    ensures SizesBounded(chunks, runs, chunkSize)
  {
    forall j | 0 <= j < |chunks|
      ensures && runs[j] != []
              && |chunks[j].content| <= |Block(runs[j])|
              && (|runs[j]| == 1 || |Block(runs[j][..|runs[j]| - 1])| < chunkSize)
              && (chunkSize >= 1 ==> |chunks[j].content| <= chunkSize + |runs[j][|runs[j]| - 1]|)
    {
      FittedSizeAt(chunks, runs, filename, chunkSize, j);
      FitSize(chunks[j].content, runs[j], chunkSize);
    }
  }

  lemma FittedSizeAt(chunks: seq<Chunk>, runs: seq<seq<string>>, filename: string, chunkSize: int, j: nat)
    requires ChunksFit(chunks, runs, filename, chunkSize)
    requires j < |chunks|
    ensures runs[j] != [] && chunks[j].content == Trim(Block(runs[j]))
    ensures |runs[j]| == 1 || |Block(runs[j][..|runs[j]| - 1])| < chunkSize
  {
    assert ChunkFits(chunks[j], runs[j], Flatten(runs[..j]), filename, chunkSize);
  }

  /** The size facts of a chunk cut from `run` by the loop. */
  lemma FitSize(content: string, run: seq<string>, chunkSize: int)
    requires run != [] && content == Trim(Block(run))
    requires |run| == 1 || |Block(run[..|run| - 1])| < chunkSize
    ensures |content| <= |Block(run)|
    ensures chunkSize >= 1 ==> |content| <= chunkSize + |run[|run| - 1]|
  {
    var init := run[..|run| - 1];
    assert init + [run[|run| - 1]] == run;
    BlockSnoc(init, run[|run| - 1]);
    if |run| == 1 {
      assert init == [];
    }
  }

  /**
    A heading line always starts a fresh chunk unless only whitespace is
    pending: every line of a chunk before a heading line is blank, so a chunk
    holds at most one heading line, and that is its first non-blank line.
  */
  lemma HeadingLineOpensChunk(content: string, filename: string, chunkSize: int)
    ensures var r := Chunking(content, filename, chunkSize);
      && |r.runs| == |r.chunks|
      && forall j, i, k :: 0 <= j < |r.chunks| && 0 <= k < i < |r.runs[j]| && IsHeadingLine(r.runs[j][i]) ==>
           IsBlank(r.runs[j][k]) && !IsHeadingLine(r.runs[j][k])
  {
    ChunkingFinished(content, filename, chunkSize);
    forall line | IsHeadingLine(line) ensures !IsBlank(line) {
      HeadingLineNotBlank(line);
    }
  }

  /**
    A chunk's heading is the text of the last heading line at or before the
    chunk's final line, or "" when there is none.
  */
  lemma ChunkHeadingIsLatest(content: string, filename: string, chunkSize: int)
    ensures var r := Chunking(content, filename, chunkSize);
      && |r.runs| == |r.chunks|
      && forall j :: 0 <= j < |r.chunks| ==>
           && r.chunks[j].heading == LastHeading(Flatten(r.runs[..j + 1]))
  {
    ChunkingFinished(content, filename, chunkSize);
    FittedHeadings(Chunking(content, filename, chunkSize), Split(content, '\n'), filename, chunkSize);
  }

  lemma FittedHeadings(a: Acc, lines: seq<string>, filename: string, chunkSize: int)
    requires Finished(a, lines, filename, chunkSize)
    ensures |a.runs| == |a.chunks|
    ensures forall j :: 0 <= j < |a.chunks| ==>
      && a.chunks[j].heading == LastHeading(Flatten(a.runs[..j + 1]))
  {
    forall j | 0 <= j < |a.chunks|
      ensures a.chunks[j].heading == LastHeading(Flatten(a.runs[..j + 1]))
    {
      FittedHeadingAt(a.chunks, a.runs, filename, chunkSize, j);
      FlattenTake(a.runs, j);
    }
  }

  lemma FittedHeadingAt(chunks: seq<Chunk>, runs: seq<seq<string>>, filename: string, chunkSize: int, j: nat)
    requires ChunksFit(chunks, runs, filename, chunkSize)
    requires j < |chunks|
    ensures chunks[j].heading == LastHeading(Flatten(runs[..j]) + runs[j])
  {
    assert ChunkFits(chunks[j], runs[j], Flatten(runs[..j]), filename, chunkSize);
  }

  lemma FlattenTake(runs: seq<seq<string>>, j: nat)
    requires j < |runs|
    ensures Flatten(runs[..j + 1]) == Flatten(runs[..j]) + runs[j]
  {
    assert runs[..j + 1] == runs[..j] + [runs[j]];
    FlattenSnoc(runs[..j], runs[j]);
  }

  /**
    Chunks emitted at a heading or at the end of the input are never blank:
    a chunk whose content is empty was cut by the size branch.
  */
  lemma BlankChunksComeFromSizeCuts(content: string, filename: string, chunkSize: int)
    ensures var r := Chunking(content, filename, chunkSize);
      && |r.runs| == |r.chunks|
      && forall j :: 0 <= j < |r.chunks| && r.chunks[j].content == "" ==> |Block(r.runs[j])| >= chunkSize
  {
    ChunkingFinished(content, filename, chunkSize);
  }

  lemma {:induction false} BlankRun(lines: seq<string>, filename: string, chunkSize: int)
    requires forall k :: 0 <= k < |lines| ==> IsBlank(lines[k])
    requires |Block(lines)| < chunkSize
    ensures Run(lines, filename, chunkSize).chunks == []
    ensures Run(lines, filename, chunkSize).buf == Block(lines)
  {
    if lines != [] {
      var init := lines[..|lines| - 1];
      var line := lines[|lines| - 1];
      BlankRun(init, filename, chunkSize);
      if IsHeadingLine(line) {
        HeadingLineNotBlank(line);
      }
    }
  }

  /** Whitespace-only input that cannot fill the buffer gives no chunks at all. */
  lemma ShortBlankInputHasNoChunks(content: string, filename: string, chunkSize: int)
    requires IsBlank(content)
    requires |content| + 1 < chunkSize
    ensures Chunking(content, filename, chunkSize).chunks == []
  {
    var lines := Split(content, '\n');
    SplitOfBlank(content, '\n');
    BlockOfLines(content);
    BlankRun(lines, filename, chunkSize);
    BlankLinesBlock(lines);
  }

  /**
    On a blank one-line input that does fill the buffer, the size branch
    emits one chunk whose content is empty.
  */
  lemma SizeCutEmitsEmptyChunk(content: string, filename: string, chunkSize: int)
    requires IsBlank(content) && '\n' !in content
    requires |content| + 1 >= chunkSize
    ensures Chunking(content, filename, chunkSize).chunks == [Chunk("", filename, "")]
  {
    assert Split(content, '\n') == [content];
    assert [content][..0] == [];
    if IsHeadingLine(content) {
      HeadingLineNotBlank(content);
    }
    BlankConcat(content, "\n");
    var a1 := AtHeading(Start, content, filename);
    assert a1 == Start;
    var a2 := Append(a1, content);
    assert a2.buf == content + "\n" && Trim(a2.buf) == "";
    var a3 := CutIfFull(a2, filename, chunkSize);
    assert a3 == Emit(a2, filename);
    assert a3.chunks == [Chunk("", filename, "")];
    assert Run([content], filename, chunkSize) == a3;
  }
}
