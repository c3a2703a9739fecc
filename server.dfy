/**
  The `search_knowledge` tool handler of `src/server.ts`: the query is
  embedded, the store is searched, and the hits are formatted into ranked
  results; a failure in either call becomes an error response.

  The embedding model and the vector store are function parameters that
  either return a value or fail with the text of what they threw.
*/
module Server {
  import opened Wrappers
  import opened Records

  /** The `default(5)` of the tool's `limit` parameter. */
  const DefaultLimit: int := 5

  /** What `source` puts between the file name and a shown heading. */
  const Separator: string := " > "

  /** The text in front of a failure's description. */
  const ErrorPrefix: string := "Error: "

  /** JavaScript truthiness of an optional string: present and not empty. */
  predicate Truthy(heading: Option<string>) {
    heading.Some? && heading.value != ""
  }

  /** `${r.filename}${r.heading ? ` > ${r.heading}` : ""}`. */
  function Source(filename: string, heading: Option<string>): string
  {
    if Truthy(heading) then filename + Separator + heading.value else filename
  }

  /**
    The source always starts with the file name; it is the bare file name
    exactly when the heading is absent or empty, and otherwise the heading
    can be read back after the separator.
  */
  lemma SourceShowsHeading(filename: string, heading: Option<string>)
    ensures var s := Source(filename, heading);
      && |filename| <= |s|
      && s[..|filename|] == filename
      && (s == filename <==> !Truthy(heading))
      && (Truthy(heading) ==>
            && s[|filename|..|filename| + |Separator|] == Separator
            && s[|filename| + |Separator|..] == heading.value)
  {
    var s := Source(filename, heading);
    if Truthy(heading) {
      assert s == filename + Separator + heading.value;
      assert s[..|filename|] == filename;
      assert s[|filename|..|filename| + |Separator|] == Separator;
      assert s[|filename| + |Separator|..] == heading.value;
    }
  }

  /** Two hits of the same file with shown headings have the same source only for the same heading. */
  lemma SourceDistinguishesHeadings(filename: string, h1: Option<string>, h2: Option<string>)
    requires Truthy(h1) && Truthy(h2)
    requires Source(filename, h1) == Source(filename, h2)
    ensures h1 == h2
  {
    SourceShowsHeading(filename, h1);
    SourceShowsHeading(filename, h2);
  }

  /** One element of `formattedResults`, with the score already rendered as text. */
  datatype FormattedResult = FormattedResult(rank: int, score: string, source: string, content: string)

  /**
    `results.map((r, idx) => ({rank: idx + 1, score: r.score.toFixed(4), ...}))`,
    where `fixed` is the score's rendering.
  */
  function FormatResults<S>(results: seq<SearchResult<S>>, fixed: S -> string): seq<FormattedResult>
  {
    seq(|results|, idx requires 0 <= idx < |results| =>
      FormattedResult(idx + 1, fixed(results[idx].score),
        Source(results[idx].filename, results[idx].heading), results[idx].content))
  }

  /**
    One formatted result per hit, in the store's order: the i-th (from 0) has
    rank i + 1, the hit's rendered score, its source, and its content
    unchanged.
  */
  lemma FormattedInOrder<S>(results: seq<SearchResult<S>>, fixed: S -> string)
    ensures var out := FormatResults(results, fixed);
      && |out| == |results|
      && forall i :: 0 <= i < |results| ==>
           && out[i].rank == i + 1
           && out[i].score == fixed(results[i].score)
           && out[i].source == Source(results[i].filename, results[i].heading)
           && out[i].content == results[i].content
  {
  }

  /**
    The ranks run from 1 to the number of hits and strictly increase, so each
    of 1 .. n is used exactly once.
  */
  lemma RanksOneToN<S>(results: seq<SearchResult<S>>, fixed: S -> string)
    ensures var out := FormatResults(results, fixed);
      && (forall i :: 0 <= i < |out| ==> 1 <= out[i].rank <= |results|)
      && (forall i, j :: 0 <= i < j < |out| ==> out[i].rank < out[j].rank)
      && (out != [] ==> out[0].rank == 1 && out[|out| - 1].rank == |results|)
  {
  }

  /** Formatting fewer hits gives the first results of formatting more: a rank never depends on later hits. */
  lemma FormatPrefix<S>(results: seq<SearchResult<S>>, fixed: S -> string, n: nat)
    requires n <= |results|
    ensures FormatResults(results[..n], fixed) == FormatResults(results, fixed)[..n]
  {
    var short := FormatResults(results[..n], fixed);
    var long := FormatResults(results, fixed);
    assert |short| == |long[..n]|;
    forall i | 0 <= i < n
      ensures short[i] == long[..n][i]
    {
      assert results[..n][i] == results[i];
    }
  }

  /** `limit` as the handler sees it after parsing: the given number, or 5. */
  function EffectiveLimit(limit: Option<int>): int
  {
    match limit
    case None => DefaultLimit
    case Some(n) => n
  }

  /** The one content item of a response. */
  datatype Content =
    | Payload(query: string, results: seq<FormattedResult>)  // the object passed to `JSON.stringify`
    | Text(text: string)

  /** The tool's response: `isError` is absent, which reads as false, on success. */
  datatype Response = Response(isError: bool, content: Content)

  /** The error response of the `catch` block for what was thrown. */
  function ErrorResponse(error: string): Response
  {
    Response(true, Text(ErrorPrefix + error))
  }

  /**
    The handler for `query` and `limit`. `embed` is the embedding model,
    `search` the store's search with its limit, `fixed` the score's rendering.
    A failure is the string form of what the call threw.
  */
  function SearchKnowledge<V, S>(query: string, limit: Option<int>,
                                 embed: string -> Result<V, string>,
                                 search: (V, int) -> Result<seq<SearchResult<S>>, string>,
                                 fixed: S -> string): Response
  {
    match embed(query)
    case Failure(e) => ErrorResponse(e)
    case Success(v) =>
      match search(v, EffectiveLimit(limit))
      case Failure(e) => ErrorResponse(e)
      case Success(results) => Response(false, Payload(query, FormatResults(results, fixed)))
  }

  /**
    The response is an error exactly when embedding or searching failed; it
    then carries "Error: " followed by the first failure, and otherwise the
    query unchanged with the formatted hits of the search.
  */
  lemma SearchKnowledgeOutcome<V, S>(query: string, limit: Option<int>,
                                     embed: string -> Result<V, string>,
                                     search: (V, int) -> Result<seq<SearchResult<S>>, string>,
                                     fixed: S -> string)
    ensures var resp := SearchKnowledge(query, limit, embed, search, fixed);
      && (resp.isError <==>
            embed(query).Failure? || search(embed(query).value, EffectiveLimit(limit)).Failure?)
      && (resp.isError <==> resp.content.Text?)
      && (embed(query).Failure? ==> resp.content.text == ErrorPrefix + embed(query).error)
      && (embed(query).Success? && search(embed(query).value, EffectiveLimit(limit)).Failure? ==>
            resp.content.text == ErrorPrefix + search(embed(query).value, EffectiveLimit(limit)).error)
      && (!resp.isError ==>
            && resp.content.query == query
            && resp.content.results ==
                 FormatResults(search(embed(query).value, EffectiveLimit(limit)).value, fixed))
  {
  }

  /** An error response's text starts with "Error: " and the rest of it is what was thrown. */
  lemma ErrorTextStartsWithPrefix(error: string)
    ensures var r := ErrorResponse(error);
      && r.isError && r.content.Text?
      && |ErrorPrefix| <= |r.content.text|
      && r.content.text[..|ErrorPrefix|] == ErrorPrefix
      && r.content.text[|ErrorPrefix|..] == error
  {
    var t := ErrorPrefix + error;
    assert t[..|ErrorPrefix|] == ErrorPrefix;
    assert t[|ErrorPrefix|..] == error;
  }
}
