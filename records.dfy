/** The records the chunkers hand to the vector store and the store hands back. */
module Records {
  import opened Wrappers

  /** A piece of a document with the file it came from and its section heading. */
  datatype Chunk = Chunk(content: string, filename: string, heading: string)

  /**
    One hit of a store search. The heading is optional in the store's
    interface; `score` is the store's similarity value, kept abstract.
  */
  datatype SearchResult<S> = SearchResult(content: string, filename: string, heading: Option<string>, score: S)
}
