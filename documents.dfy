/** The LangChain `Document` that flows between the processor, the vector
    store and the chat manager: page text plus a metadata dictionary. */
module Documents {
  import opened Outcomes

  /** The metadata dictionary, as a record with one optional field per key
      the core uses: `Some(v)` when the key is present. A score can also be
      present but hold Python's `None`, hence `score: Option<Option<real>>`. */
  datatype Metadata = Metadata(
    source: Option<string>,
    filename: Option<string>,
    fileType: Option<string>,
    fileSize: Option<nat>,
    chunkIndex: Option<int>,
    score: Option<Option<real>>)

  /** The empty dictionary `{}`. */
  const EmptyMetadata := Metadata(None, None, None, None, None, None)

  datatype Document = Document(pageContent: string, metadata: Metadata)
}
