/**
  The heading propagation of `src/ingest_markdown.ts`. A text splitter cuts
  the document into segments; the model takes these segments as its input.
  Each segment becomes one chunk with its text unchanged. A segment in which
  the multi-line regular expression `^#{1,6}\s+(.+?)$` matches sets the
  current heading to the trimmed capture of its first match; every other
  segment keeps the heading of the segment before it.

  The regular expression is modelled exactly, with ECMAScript's backtracking
  order: the leftmost start position wins; `#{1,6}` can only succeed
  by taking the whole run of `#`; `\s+` is greedy and may cross line breaks;
  `.+?` is lazy and stops at the first line end. `Candidate` is the
  declarative reading (every way the expression can match) and `MatchAt` /
  `FirstMatch` the one the engine returns; the lemmas tie the two together.
*/
module IngestMarkdown {
  import opened Wrappers
  import opened JsText
  import opened Markdown
  import opened Records
  import Ingest

  // ---------------------------------------------------------------------
  // The regular expression /^#{1,6}\s+(.+?)$/m

  /** `^` under the `m` flag: the start of the text or just after a line terminator. */
  predicate AtLineStart(s: string, p: nat)
    requires p <= |s|
  {
    p == 0 || IsLineTerminator(s[p - 1])
  }

  /**
    A match: `index` is where it starts (`match.index`) and
    `s[start..end]` is the text of capture group 1.
  */
  datatype RegexMatch = RegexMatch(index: nat, start: nat, end: nat)

  /**
    Every way the expression can match `s` at `p`: `k` characters `#`, the
    whitespace run `s[p+k..m]`, the capture `s[m..e]` without line
    terminators, ending where `$` holds.
  */
  ghost predicate Candidate(s: string, p: nat, k: nat, m: nat, e: nat) {
    && p + k < m < e <= |s|
    && AtLineStart(s, p)
    && 1 <= k <= 6
    && (forall i :: p <= i < p + k ==> s[i] == '#')
    && (forall i :: p + k <= i < m ==> IsSpace(s[i]))
    && (forall i :: m <= i < e ==> !IsLineTerminator(s[i]))
    && (e == |s| || IsLineTerminator(s[e]))
  }

  /** The end of the whitespace run starting at `q`: where greedy `\s+` stops. */
  function SpaceRunEnd(s: string, q: nat): (m: nat)
    requires q <= |s|
    ensures q <= m <= |s|
    decreases |s| - q
  {
    if q < |s| && IsSpace(s[q]) then SpaceRunEnd(s, q + 1) else q
  }

  /** The first position from `e` on where `$` holds under the `m` flag. */
  function LineEnd(s: string, e: nat): (t: nat)
    requires e <= |s|
    ensures e <= t <= |s|
    decreases |s| - e
  {
    if e < |s| && !IsLineTerminator(s[e]) then LineEnd(s, e + 1) else e
  }

  /** The last position in `[lo, hi)` that `.` can match, or -1. */
  function LastNonTerminator(s: string, lo: nat, hi: nat): (r: int)
    requires lo <= hi <= |s|
    ensures r == -1 || lo <= r < hi
    decreases hi - lo
  {
    if hi == lo then -1
    else if !IsLineTerminator(s[hi - 1]) then hi - 1
    else LastNonTerminator(s, lo, hi - 1)
  }

  /** `SpaceRunEnd` stops at the first character that is not whitespace. */
  lemma {:induction false} SpaceRunEndSpec(s: string, q: nat)
    requires q <= |s|
    ensures var m := SpaceRunEnd(s, q);
      && (forall i :: q <= i < m ==> IsSpace(s[i]))
      && (m == |s| || !IsSpace(s[m]))
    decreases |s| - q
  {
    if q < |s| && IsSpace(s[q]) {
      SpaceRunEndSpec(s, q + 1);
    }
  }

  /** `LineEnd` stops at the first line terminator. */
  lemma {:induction false} LineEndSpec(s: string, e: nat)
    requires e <= |s|
    ensures var t := LineEnd(s, e);
      && (forall i :: e <= i < t ==> !IsLineTerminator(s[i]))
      && (t == |s| || IsLineTerminator(s[t]))
    decreases |s| - e
  {
    if e < |s| && !IsLineTerminator(s[e]) {
      LineEndSpec(s, e + 1);
    }
  }

  /** Everything after the last position `.` can match is a line terminator. */
  lemma {:induction false} LastNonTerminatorSpec(s: string, lo: nat, hi: nat)
    requires lo <= hi <= |s|
    ensures var r := LastNonTerminator(s, lo, hi);
      && (r >= 0 ==> !IsLineTerminator(s[r]))
      && (forall i :: r < i < hi && lo <= i ==> IsLineTerminator(s[i]))
    decreases hi - lo
  {
    if hi > lo && IsLineTerminator(s[hi - 1]) {
      LastNonTerminatorSpec(s, lo, hi - 1);
    }
  }

  /**
    The match the engine finds when it tries position `p`. After the marker,
    greedy `\s+` runs to the end of the whitespace; when text follows, the
    capture runs from there to the line end. When the whitespace reaches the
    end of the text, `\s+` gives characters back, the last first, until `.`
    can match one; the capture is then that one whitespace character.
  */
  function MatchAt(s: string, p: nat): Option<RegexMatch>
    requires p <= |s|
  {
    if !AtLineStart(s, p) || !MarkerAt(s, p) then None
    else
      var q := p + HashRun(s, p);
      var m := SpaceRunEnd(s, q);
      if m < |s| then Some(RegexMatch(p, m, LineEnd(s, m)))
      else
        var r := LastNonTerminator(s, q + 1, |s|);
        if r < 0 then None else Some(RegexMatch(p, r, r + 1))
  }

  /** `s.match(...)` scanning from position `p`: the first position with a match. */
  function FirstMatchFrom(s: string, p: nat): Option<RegexMatch>
    requires p <= |s|
    decreases |s| - p
  {
    if p == |s| then None
    else if MatchAt(s, p).Some? then MatchAt(s, p)
    else FirstMatchFrom(s, p + 1)
  }

  /** `s.match(/^#{1,6}\s+(.+?)$/m)`. */
  function FirstMatch(s: string): Option<RegexMatch>
  {
    FirstMatchFrom(s, 0)
  }

  /** The scan returns the match at the first position from `p` where there is one. */
  lemma {:induction false} FirstMatchFromIsFirst(s: string, p: nat)
    requires p <= |s|
    ensures var x := FirstMatchFrom(s, p);
      x.Some? ==> p <= x.value.index < |s| && MatchAt(s, x.value.index) == x
    ensures var x := FirstMatchFrom(s, p);
      x.Some? ==> forall t :: p <= t < x.value.index ==> MatchAt(s, t).None?
    ensures FirstMatchFrom(s, p).None? ==> forall t :: p <= t <= |s| ==> MatchAt(s, t).None?
    decreases |s| - p
  {
    MatchAtIndex(s, p);
    if p < |s| && MatchAt(s, p).None? {
      FirstMatchFromIsFirst(s, p + 1);
    }
  }

  /** A match found at `p` starts at `p`, and none is found at the end of the text. */
  lemma MatchAtIndex(s: string, p: nat)
    requires p <= |s|
    ensures MatchAt(s, p).Some? ==> MatchAt(s, p).value.index == p
    ensures p == |s| ==> MatchAt(s, p).None?
  {
    if p == |s| {
      assert HashRun(s, p) == 0;
    }
  }

  /** What the engine returns at `p` is one of the expression's candidates there. */
  lemma MatchAtIsCandidate(s: string, p: nat)
    requires p <= |s|
    ensures MatchAt(s, p).Some? ==>
      var x := MatchAt(s, p).value;
      x.index == p && Candidate(s, p, HashRun(s, p), x.start, x.end)
  {
    if MatchAt(s, p).Some? {
      var q := p + HashRun(s, p);
      var m := SpaceRunEnd(s, q);
      SpaceRunEndSpec(s, q);
      assert q < m by { assert IsSpace(s[q]); }
      if m < |s| {
        TextAfterSpacesIsCandidate(s, p, q, m);
      } else {
        SpacesToEndIsCandidate(s, p, q);
      }
    }
  }

  /** The case where text follows the whitespace run: the capture is the rest of that line. */
  lemma TextAfterSpacesIsCandidate(s: string, p: nat, q: nat, m: nat)
    requires p <= |s| && AtLineStart(s, p) && MarkerAt(s, p) && q == p + HashRun(s, p)
    requires q < m < |s| && (forall i :: q <= i < m ==> IsSpace(s[i])) && !IsSpace(s[m])
    ensures Candidate(s, p, HashRun(s, p), m, LineEnd(s, m))
  {
    LineEndSpec(s, m);
    assert !IsLineTerminator(s[m]);
  }

  /** The case where the whitespace run reaches the end: the capture backs off to one character. */
  lemma SpacesToEndIsCandidate(s: string, p: nat, q: nat)
    requires p <= |s| && AtLineStart(s, p) && MarkerAt(s, p) && q == p + HashRun(s, p)
    requires forall i :: q <= i < |s| ==> IsSpace(s[i])
    requires LastNonTerminator(s, q + 1, |s|) >= 0
    ensures var r := LastNonTerminator(s, q + 1, |s|); Candidate(s, p, HashRun(s, p), r, r + 1)
  {
    LastNonTerminatorSpec(s, q + 1, |s|);
  }

  /**
    Any candidate at `p` means the engine matches at `p`, and prefers it in
    backtracking order: the longest whitespace run, then the shortest capture.
  */
  lemma CandidateIsMatched(s: string, p: nat, k: nat, m: nat, e: nat)
    requires Candidate(s, p, k, m, e)
    ensures MatchAt(s, p).Some?
    ensures var x := MatchAt(s, p).value;
      k == HashRun(s, p) && m <= x.start && (m == x.start ==> e == x.end)
  {
    CandidateMarker(s, p, k, m, e);
    var q := p + k;
    var sm := SpaceRunEnd(s, q);
    SpaceRunEndSpec(s, q);
    assert m <= sm;
    if sm < |s| {
      if sm == m { LineEndUnique(s, m, e); }
    } else {
      CandidateBeforeEnd(s, p, k, m, e);
    }
  }

  /** A candidate's `#` characters are the whole run at `p`, so the marker matches there. */
  lemma CandidateMarker(s: string, p: nat, k: nat, m: nat, e: nat)
    requires Candidate(s, p, k, m, e)
    ensures HashRun(s, p) == k && MarkerAt(s, p)
  {
    assert HashesThenSpace(s, p, k);
    MarkerAtIsRegexMatch(s, p);
    assert !IsSpace('#');
  }

  /** When the whitespace reaches the end of the text, the back-off point is at or after any candidate's capture start. */
  lemma CandidateBeforeEnd(s: string, p: nat, k: nat, m: nat, e: nat)
    requires Candidate(s, p, k, m, e) && HashRun(s, p) == k && MarkerAt(s, p)
    requires SpaceRunEnd(s, p + k) == |s|
    ensures MatchAt(s, p).Some?
    ensures var x := MatchAt(s, p).value; m <= x.start && (m == x.start ==> e == x.end)
  {
    var q := p + k;
    var r := LastNonTerminator(s, q + 1, |s|);
    LastNonTerminatorSpec(s, q + 1, |s|);
    assert !IsLineTerminator(s[m]);
    assert r >= m;
    assert MatchAt(s, p) == Some(RegexMatch(p, r, r + 1));
    if r == m {
      LineEndUnique(s, m, e);
      LineEndUnique(s, m, m + 1);
    }
  }

  /** Where `$` first holds after `m` is determined. */
  lemma LineEndUnique(s: string, m: nat, e: nat)
    requires m <= e <= |s|
    requires forall i :: m <= i < e ==> !IsLineTerminator(s[i])
    requires e == |s| || IsLineTerminator(s[e])
    ensures LineEnd(s, m) == e
  {
    LineEndSpec(s, m);
  }

  /**
    `FirstMatch` is the ECMAScript result: there is a match exactly when some
    candidate exists; it starts at the leftmost candidate position and,
    among the candidates there, has the longest whitespace run and the
    shortest capture.
  */
  lemma FirstMatchIsPreferredCandidate(s: string)
    ensures FirstMatch(s).None? <==> forall p: nat, k: nat, m: nat, e: nat :: !Candidate(s, p, k, m, e)
    ensures FirstMatch(s).Some? ==>
      var x := FirstMatch(s).value;
      && x.index < |s|
      && Candidate(s, x.index, HashRun(s, x.index), x.start, x.end)
      && forall p: nat, k: nat, m: nat, e: nat :: Candidate(s, p, k, m, e) ==>
           x.index < p || (x.index == p && m <= x.start && (m == x.start ==> e == x.end))
  {
    forall p: nat, k: nat, m: nat, e: nat | Candidate(s, p, k, m, e)
      ensures MatchAt(s, p).Some?
      ensures var x := MatchAt(s, p).value; m <= x.start && (m == x.start ==> e == x.end)
    {
      CandidateIsMatched(s, p, k, m, e);
    }
    FirstMatchFromIsFirst(s, 0);
    if FirstMatch(s).Some? {
      MatchAtIsCandidate(s, FirstMatch(s).value.index);
    }
  }

  /** The capture is a non-empty piece of one line. */
  lemma CaptureWithinLine(s: string)
    ensures FirstMatch(s).Some? ==>
      var x := FirstMatch(s).value;
      && x.start < x.end <= |s|
      && forall i :: x.start <= i < x.end ==> !IsLineTerminator(s[i])
  {
    FirstMatchFromIsFirst(s, 0);
    if FirstMatch(s).Some? {
      MatchAtIsCandidate(s, FirstMatch(s).value.index);
    }
  }

  /** The heading a segment sets: `headingMatch[1].trim()`, or nothing without a match. */
  function SegmentHeading(text: string): Option<string>
  {
    match FirstMatch(text)
    case None => None
    case Some(x) =>
      CaptureWithinLine(text);
      Some(Trim(text[x.start..x.end]))
  }

  /**
    On one line, the two chunkers read a heading line alike: the
    marker-and-capture match yields the text the line chunker stores, and
    when it does not match, that text is "".
  */
  lemma SameLineHeading(line: string)
    requires forall i :: 0 <= i < |line| ==> !IsLineTerminator(line[i])
    requires Ingest.IsHeadingLine(line)
    ensures SegmentHeading(line) == None ==> Ingest.HeadingText(line) == ""
    ensures SegmentHeading(line) != None ==> SegmentHeading(line).value == Ingest.HeadingText(line)
  {
    SingleLineSegment(line);
    HeadingTextAfterSpaces(line);
  }

  /** The heading a one-line segment sets, in terms of the text after the whitespace run. */
  lemma SingleLineSegment(line: string)
    requires forall i :: 0 <= i < |line| ==> !IsLineTerminator(line[i])
    requires Ingest.IsHeadingLine(line)
    ensures var m := SpaceRunEnd(line, HashRun(line, 0));
      m < |line| ==> SegmentHeading(line) == Some(Trim(line[m..]))
    ensures var m := SpaceRunEnd(line, HashRun(line, 0));
      m == |line| ==> SegmentHeading(line) == None || SegmentHeading(line) == Some("")
  {
    var m := SpaceRunEnd(line, HashRun(line, 0));
    SingleLineMatch(line);
    if m < |line| {
      assert line[m..|line|] == line[m..];
    } else if FirstMatch(line).Some? {
      var x := FirstMatch(line).value;
      BlankTrim(line[x.start..x.end]);
    }
  }

  /**
    On a line without line terminators the only line start is 0: the match
    there captures the rest of the line after the whitespace run, or one
    whitespace character when the run reaches the end.
  */
  lemma SingleLineMatch(line: string)
    requires forall i :: 0 <= i < |line| ==> !IsLineTerminator(line[i])
    requires Ingest.IsHeadingLine(line)
    ensures var m := SpaceRunEnd(line, HashRun(line, 0));
      m < |line| ==> FirstMatch(line) == Some(RegexMatch(0, m, |line|))
    ensures var m := SpaceRunEnd(line, HashRun(line, 0));
      m == |line| && FirstMatch(line).Some? ==>
        var x := FirstMatch(line).value;
        x.start + 1 == x.end <= |line| && IsSpace(line[x.start])
  {
    var n := HashRun(line, 0);
    var m := SpaceRunEnd(line, n);
    SpaceRunEndSpec(line, n);
    OnlyFirstLineStarts(line, 1);
    assert FirstMatch(line) == MatchAt(line, 0);
    if m < |line| {
      LineEndUnique(line, m, |line|);
    } else {
      var r := LastNonTerminator(line, n + 1, |line|);
      LastNonTerminatorSpec(line, n + 1, |line|);
      assert MatchAt(line, 0) == if r < 0 then None else Some(RegexMatch(0, r, r + 1));
    }
  }

  /** The line chunker's heading text is the line after the marker and its whitespace run. */
  lemma HeadingTextAfterSpaces(line: string)
    requires Ingest.IsHeadingLine(line)
    ensures var m := SpaceRunEnd(line, HashRun(line, 0));
      Ingest.HeadingText(line) == Trim(line[m..])
    ensures SpaceRunEnd(line, HashRun(line, 0)) == |line| ==> Ingest.HeadingText(line) == ""
  {
    var n := HashRun(line, 0);
    var m := SpaceRunEnd(line, n);
    assert Ingest.StripMarker(line) == line[n + 1..];
    SpaceRunEndSpec(line, n);
    SpaceRunTrim(line, n, m);
  }

  /** Dropping the whitespace run after the marker does not change the trimmed text. */
  lemma SpaceRunTrim(line: string, n: nat, m: nat)
    requires n < m <= |line|
    requires forall i :: n <= i < m ==> IsSpace(line[i])
    ensures Trim(line[n + 1..]) == Trim(line[m..])
    ensures m == |line| ==> Trim(line[n + 1..]) == ""
  {
    assert IsBlank(line[n + 1..m]);
    assert line[n + 1..] == line[n + 1..m] + line[m..];
    TrimAfterBlank(line[n + 1..m], line[m..]);
    if m == |line| {
      assert line[m..] == [];
    }
  }

  lemma BlankTrim(w: string)
    requires |w| == 1 && IsSpace(w[0])
    ensures Trim(w) == ""
  {
    assert IsBlank(w);
  }

  /** Without line terminators, no position but 0 is a line start. */
  lemma {:induction false} OnlyFirstLineStarts(s: string, p: nat)
    requires 1 <= p <= |s|
    requires forall i :: 0 <= i < |s| ==> !IsLineTerminator(s[i])
    ensures FirstMatchFrom(s, p) == None
    decreases |s| - p
  {
    if p < |s| {
      assert !AtLineStart(s, p);
      OnlyFirstLineStarts(s, p + 1);
    }
  }

  /**
    `\s+` crosses line breaks: a lone `#` line takes its heading from the
    next line with text.
  */
  lemma HeadingFromNextLine()
    ensures SegmentHeading("#\n\nIntro") == Some("Intro")
  {
    var s := "#\n\nIntro";
    assert HashRun(s, 0) == 1 by { assert s[0] == '#' && s[1] != '#'; }
    assert MarkerAt(s, 0);
    assert SpaceRunEnd(s, 1) == 3 by {
      assert IsSpace(s[1]) && IsSpace(s[2]) && !IsSpace(s[3]);
    }
    assert LineEnd(s, 3) == 8 by {
      assert forall i :: 3 <= i < 8 ==> !IsLineTerminator(s[i]);
      LineEndUnique(s, 3, 8);
    }
    assert MatchAt(s, 0) == Some(RegexMatch(0, 3, 8));
    assert FirstMatch(s) == Some(RegexMatch(0, 3, 8));
    assert s[3..8] == "Intro";
    TrimIntro();
  }

  lemma TrimIntro()
    ensures Trim("Intro") == "Intro"
  {
    assert !IsSpace('I') && !IsSpace('o');
  }

  // ---------------------------------------------------------------------
  // The loop over the segments

  /** What each segment's match sets the heading to, segment by segment. */
  function Headings(docs: seq<string>): seq<Option<string>>
  {
    seq(|docs|, i requires 0 <= i < |docs| => SegmentHeading(docs[i]))
  }

  /** `currentHeading` after these segment results: the latest match decides, "" without one. */
  function Latest(hs: seq<Option<string>>): string
  {
    if hs == [] then ""
    else match hs[|hs| - 1]
      case Some(h) => h
      case None => Latest(hs[..|hs| - 1])
  }

  /**
    The chunks for segments `docs` whose matches set the headings `hs`:
    segment `i` with the file name and the heading after segments `0..i`.
  */
  function Carry(docs: seq<string>, hs: seq<Option<string>>, filename: string): seq<Chunk>
    requires |hs| == |docs|
  {
    seq(|docs|, i requires 0 <= i < |docs| => Chunk(docs[i], filename, Latest(hs[..i + 1])))
  }

  /** What the loop of `chunkMarkdown` returns for the splitter's segments `docs`. */
  function Propagated(docs: seq<string>, filename: string): seq<Chunk>
  {
    Carry(docs, Headings(docs), filename)
  }

  /** The loop of `chunkMarkdown` in `src/ingest_markdown.ts`, over the splitter's segments. */
  method ChunkMarkdown(docs: seq<string>, filename: string) returns (chunks: seq<Chunk>)
    ensures chunks == Propagated(docs, filename)
  {
    chunks := [];
    var currentHeading := "";
    ghost var hs := Headings(docs);
    for i := 0 to |docs|
      invariant chunks == Carry(docs, hs, filename)[..i]
      invariant currentHeading == Latest(hs[..i])
    {
      ghost var before := currentHeading;
      var chunkText := docs[i];
      var headingMatch := FirstMatch(chunkText);
      if headingMatch.Some? {
        CaptureWithinLine(chunkText);
        currentHeading := Trim(chunkText[headingMatch.value.start..headingMatch.value.end]);
      }
      assert hs[i] == SegmentHeading(chunkText);
      assert currentHeading == if hs[i].Some? then hs[i].value else before;
      CarryStep(docs, hs, filename, i, chunks, before, currentHeading);
      chunks := chunks + [Chunk(chunkText, filename, currentHeading)];
    }
    assert Carry(docs, hs, filename)[..|docs|] == Carry(docs, hs, filename);
  }

  /** One pass of the loop keeps both invariants. */
  lemma CarryStep(docs: seq<string>, hs: seq<Option<string>>, filename: string, i: nat,
                  chunks: seq<Chunk>, heading: string, next: string)
    requires |hs| == |docs| && i < |docs|
    requires chunks == Carry(docs, hs, filename)[..i] && heading == Latest(hs[..i])
    requires next == if hs[i].Some? then hs[i].value else heading
    ensures chunks + [Chunk(docs[i], filename, next)] == Carry(docs, hs, filename)[..i + 1]
    ensures next == Latest(hs[..i + 1])
  {
    var c := Carry(docs, hs, filename);
    assert c[..i + 1] == c[..i] + [c[i]];
    LatestStep(hs, i);
  }

  /** One more segment: its match replaces the heading, its lack of one keeps it. */
  lemma LatestStep(hs: seq<Option<string>>, i: nat)
    requires i < |hs|
    ensures Latest(hs[..i + 1]) == if hs[i].Some? then hs[i].value else Latest(hs[..i])
  {
    assert hs[..i + 1][i] == hs[i];
    assert hs[..i + 1][..i] == hs[..i];
  }

  // ---------------------------------------------------------------------
  // What the propagation guarantees, for any per-segment results

  lemma CarrySet(docs: seq<string>, hs: seq<Option<string>>, filename: string, i: nat)
    requires |hs| == |docs| && i < |docs| && hs[i].Some?
    ensures Carry(docs, hs, filename)[i].heading == hs[i].value
  {
    LatestStep(hs, i);
  }

  lemma CarryKept(docs: seq<string>, hs: seq<Option<string>>, filename: string, i: nat)
    requires |hs| == |docs| && 0 < i < |docs| && hs[i].None?
    ensures Carry(docs, hs, filename)[i].heading == Carry(docs, hs, filename)[i - 1].heading
  {
    LatestStep(hs, i);
  }

  lemma CarryEmpty(docs: seq<string>, hs: seq<Option<string>>, filename: string, i: nat)
    requires |hs| == |docs| && i < |docs|
    requires forall j :: 0 <= j <= i ==> hs[j].None?
    ensures Carry(docs, hs, filename)[i].heading == ""
  {
    LatestWithoutMatch(hs[..i + 1]);
  }

  lemma {:induction false} LatestWithoutMatch(hs: seq<Option<string>>)
    requires forall j :: 0 <= j < |hs| ==> hs[j].None?
    ensures Latest(hs) == ""
  {
    if hs != [] {
      var init := hs[..|hs| - 1];
      assert forall j :: 0 <= j < |init| ==> init[j] == hs[j];
      LatestWithoutMatch(init);
    }
  }

  lemma CarryLatest(docs: seq<string>, hs: seq<Option<string>>, filename: string, i: nat, j: nat)
    requires |hs| == |docs| && j <= i < |docs|
    requires hs[j].Some?
    requires forall t :: j < t <= i ==> hs[t].None?
    ensures Carry(docs, hs, filename)[i].heading == hs[j].value
  {
    LatestMatch(hs[..i + 1], j);
  }

  lemma {:induction false} LatestMatch(hs: seq<Option<string>>, j: nat)
    requires j < |hs|
    requires hs[j].Some?
    requires forall t :: j < t < |hs| ==> hs[t].None?
    ensures Latest(hs) == hs[j].value
    decreases |hs|
  {
    if j < |hs| - 1 {
      var init := hs[..|hs| - 1];
      assert forall t :: 0 <= t < |init| ==> init[t] == hs[t];
      LatestMatch(init, j);
    }
  }

  // ---------------------------------------------------------------------
  // What chunkMarkdown guarantees

  /** One chunk per segment, in order, with the segment's text and the file name; none dropped. */
  lemma OneChunkPerSegment(docs: seq<string>, filename: string)
    ensures |Propagated(docs, filename)| == |docs|
    ensures forall i :: 0 <= i < |docs| ==>
      Propagated(docs, filename)[i].content == docs[i] && Propagated(docs, filename)[i].filename == filename
  {
  }

  /** A segment with a match takes the trimmed capture as its heading. */
  lemma MatchSetsHeading(docs: seq<string>, filename: string, i: nat)
    requires i < |docs| && SegmentHeading(docs[i]).Some?
    ensures Propagated(docs, filename)[i].heading == SegmentHeading(docs[i]).value
  {
    assert Headings(docs)[i] == SegmentHeading(docs[i]);
    CarrySet(docs, Headings(docs), filename, i);
  }

  /** A segment without a match keeps the heading of the chunk before it. */
  lemma NoMatchCarriesHeading(docs: seq<string>, filename: string, i: nat)
    requires 0 < i < |docs| && SegmentHeading(docs[i]).None?
    ensures Propagated(docs, filename)[i].heading == Propagated(docs, filename)[i - 1].heading
  {
    assert Headings(docs)[i] == SegmentHeading(docs[i]);
    CarryKept(docs, Headings(docs), filename, i);
  }

  /** Before the first segment with a match, the heading is "". */
  lemma HeadingEmptyBeforeFirstMatch(docs: seq<string>, filename: string, i: nat)
    requires i < |docs|
    requires forall j :: 0 <= j <= i ==> SegmentHeading(docs[j]).None?
    ensures Propagated(docs, filename)[i].heading == ""
  {
    var hs := Headings(docs);
    assert forall j :: 0 <= j <= i ==> hs[j] == SegmentHeading(docs[j]);
    CarryEmpty(docs, hs, filename, i);
  }

  /**
    The heading of chunk `i` comes from the latest segment `j <= i` with a
    match: segments after `j` leave it alone.
  */
  lemma HeadingFromLatestMatch(docs: seq<string>, filename: string, i: nat, j: nat)
    requires j <= i < |docs|
    requires SegmentHeading(docs[j]).Some?
    requires forall t :: j < t <= i ==> SegmentHeading(docs[t]).None?
    ensures Propagated(docs, filename)[i].heading == SegmentHeading(docs[j]).value
  {
    var hs := Headings(docs);
    assert forall t :: j <= t <= i ==> hs[t] == SegmentHeading(docs[t]);
    CarryLatest(docs, hs, filename, i, j);
  }

  /**
    No other heading text appears: every heading is "" or the trimmed
    capture of the segment itself or of an earlier one.
  */
  lemma HeadingIsSomeCapture(docs: seq<string>, filename: string, i: nat)
    requires i < |docs|
    ensures var h := Propagated(docs, filename)[i].heading;
      h == "" || exists j :: 0 <= j <= i && SegmentHeading(docs[j]) == Some(h)
  {
    if j :| 0 <= j <= i && SegmentHeading(docs[j]).Some? && forall t :: j < t <= i ==> SegmentHeading(docs[t]).None? {
      HeadingFromLatestMatch(docs, filename, i, j);
    } else {
      NoLatestMatch(docs, i);
      HeadingEmptyBeforeFirstMatch(docs, filename, i);
    }
  }

  /** When no segment up to `i` is the latest with a match, none has one. */
  lemma {:induction false} NoLatestMatch(docs: seq<string>, i: nat)
    requires i < |docs|
    requires !exists j :: 0 <= j <= i && SegmentHeading(docs[j]).Some? && forall t :: j < t <= i ==> SegmentHeading(docs[t]).None?
    ensures forall j :: 0 <= j <= i ==> SegmentHeading(docs[j]).None?
    decreases i
  {
    if SegmentHeading(docs[i]).None? && i > 0 {
      NoLatestMatch(docs, i - 1);
    }
  }
}
