/** `VectorStore` (src/data/vector_store.py): the rows it builds for a batch
    of documents, and the `documents` table as a sequence of rows that the
    methods update.

    The embedding model is an oracle from text to a vector or an error,
    and LanceDB's nearest-neighbour ranking an oracle from the table's rows
    and the query vector to the ranked hits before the result cap. */
module VectorStorage {
  import opened Outcomes
  import opened Text
  import opened Paths
  import opened Documents
  import opened DocumentProcessing

  /** One row of the `documents` table. `metadata` is the source document's
      metadata, which the code stores as its Python repr. */
  datatype Record = Record(
    id: string,
    content: string,
    embedding: seq<real>,
    metadata: Metadata,
    source: string,
    filename: string,
    chunkIndex: nat)

  /** Opening a table that does not exist, and an embedding call that
      raised with the given message. */
  datatype Error = TableNotFound | EmbeddingFailed(message: string)

  type Embedder = string -> Result<seq<real>, string>

  /** One row of a vector search answer with its cosine `_distance`. */
  datatype Hit = Hit(row: Record, distance: real)

  /** `table.search(vector)` before `.limit(k)`: the hits for the rows of
      the table and a query vector. */
  type Ranking = (seq<Record>, seq<real>) -> seq<Hit>

  /** A search answers with rows of the table it searches: every hit is a
      stored row, and there are never more hits than rows. */
  ghost predicate FromRows(ranking: Ranking) {
    forall rows, query ::
      && |ranking(rows, query)| <= |rows|
      && forall i :: 0 <= i < |ranking(rows, query)| ==> ranking(rows, query)[i].row in rows
  }

  /** A search lists the nearest rows first: distances never decrease. */
  ghost predicate NearestFirst(ranking: Ranking) {
    forall rows, query, i, j :: 0 <= i < j < |ranking(rows, query)| ==>
      ranking(rows, query)[i].distance <= ranking(rows, query)[j].distance
  }

  /** The id of the `i`-th record of a batch: the file name, or "unknown"
      when the metadata has none, then "_" and `i` in decimal. */
  function RecordId(filename: Option<string>, i: nat): string {
    filename.GetOr("unknown") + "_" + NatToString(i)
  }

  /** The last `c` of `a + [c] + b` is the one after `a` when `b` has none:
      an id splits at its last "_". */
  lemma LastIndexOfJoin(a: string, c: char, b: string)
    requires c !in b
    ensures LastIndexOf(a + [c] + b, c) == |a|
  {
    var s := a + [c] + b;
    assert s[|a|] == c;
  }

  /** Within one batch the id determines the file name and the position:
      the digits after the last "_" read back as `i`. */
  lemma RecordIdInjective(f: Option<string>, i: nat, g: Option<string>, j: nat)
    requires RecordId(f, i) == RecordId(g, j)
    ensures f.GetOr("unknown") == g.GetOr("unknown") && i == j
  {
    var a, b := f.GetOr("unknown"), g.GetOr("unknown");
    var di, dj := NatToString(i), NatToString(j);
    var s := RecordId(f, i);
    assert s == a + ['_'] + di && s == b + ['_'] + dj;
    LastIndexOfJoin(a, '_', di);
    LastIndexOfJoin(b, '_', dj);
    assert a == s[..|a|] == b;
    assert di == s[|a| + 1..] == dj;
    NatToStringInjective(i, j);
  }

  /** The record built for document `doc` at batch position `i`. */
  function NewRecord(doc: Document, i: nat, embedding: seq<real>): Record {
    Record(
      RecordId(doc.metadata.filename, i),
      doc.pageContent,
      embedding,
      doc.metadata,
      doc.metadata.source.GetOr(""),
      doc.metadata.filename.GetOr(""),
      i)
  }

  /** The records `add_documents` prepares for `docs`, or the error of the
      first embedding call that fails. */
  function Records(docs: seq<Document>, embed: Embedder): Result<seq<Record>, Error>
    decreases |docs|
  {
    if docs == [] then Success([])
    else
      var n := |docs| - 1;
      match Records(docs[..n], embed)
      case Failure(e) => Failure(e)
      case Success(rs) =>
        match embed(docs[n].pageContent)
        case Failure(m) => Failure(EmbeddingFailed(m))
        case Success(v) => Success(rs + [NewRecord(docs[n], n, v)])
  }

  /** The batch is prepared exactly when every document embeds; then record
      `i` is built from document `i` at position `i`, with its embedding. */
  lemma {:induction false} RecordsShape(docs: seq<Document>, embed: Embedder)
    ensures Records(docs, embed).Success? <==>
      forall i :: 0 <= i < |docs| ==> embed(docs[i].pageContent).Success?
    ensures Records(docs, embed).Success? ==>
      var rs := Records(docs, embed).value;
      && |rs| == |docs|
      && forall i :: 0 <= i < |docs| ==>
           rs[i] == NewRecord(docs[i], i, embed(docs[i].pageContent).value)
    decreases |docs|
  {
    if docs != [] {
      var n := |docs| - 1;
      var prefix := docs[..n];
      RecordsShape(prefix, embed);
      assert forall i :: 0 <= i < n ==> prefix[i] == docs[i];
    }
  }

  /** A failure prepares nothing: the error is that of the first document
      whose embedding fails. */
  lemma {:induction false} RecordsFailure(docs: seq<Document>, embed: Embedder, k: nat)
    requires k < |docs| && embed(docs[k].pageContent).Failure?
    requires forall j :: 0 <= j < k ==> embed(docs[j].pageContent).Success?
    ensures Records(docs, embed) == Failure(EmbeddingFailed(embed(docs[k].pageContent).error))
    decreases |docs|
  {
    var n := |docs| - 1;
    var prefix := docs[..n];
    if k < n {
      assert prefix[k] == docs[k];
      assert forall j :: 0 <= j < k ==> prefix[j] == docs[j];
      RecordsFailure(prefix, embed, k);
    } else {
      assert forall j :: 0 <= j < n ==> prefix[j] == docs[j];
      RecordsShape(prefix, embed);
    }
  }

  /** Ids are distinct within one batch. (Across batches they are not:
      adding the same documents again repeats the same ids.) */
  lemma RecordIdsDistinct(docs: seq<Document>, embed: Embedder)
    requires Records(docs, embed).Success?
    ensures var rs := Records(docs, embed).value;
      forall i, j :: 0 <= i < j < |rs| ==> rs[i].id != rs[j].id
  {
    RecordsShape(docs, embed);
    var rs := Records(docs, embed).value;
    forall i, j | 0 <= i < j < |rs| ensures rs[i].id != rs[j].id {
      if rs[i].id == rs[j].id {
        RecordIdInjective(docs[i].metadata.filename, i, docs[j].metadata.filename, j);
      }
    }
  }

  /** The preparation loop of `add_documents`: one embedding call per
      document, in order, stopping at the first that raises. */
  method PrepareRecords(docs: seq<Document>, embed: Embedder) returns (r: Result<seq<Record>, Error>)
    ensures r == Records(docs, embed)
  {
    var rs: seq<Record> := [];
    var i := 0;
    while i < |docs|
      invariant 0 <= i <= |docs|
      invariant Records(docs[..i], embed) == Success(rs)
      invariant forall j :: 0 <= j < i ==> embed(docs[j].pageContent).Success?
    {
      assert docs[..i + 1][..i] == docs[..i];
      var embedding := embed(docs[i].pageContent);
      if embedding.Failure? {
        RecordsFailure(docs, embed, i);
        return Failure(EmbeddingFailed(embedding.error));
      }
      rs := rs + [NewRecord(docs[i], i, embedding.value)];
      i := i + 1;
    }
    assert docs[..i] == docs;
    r := Success(rs);
  }

  /** The document `get_documents_by_source` rebuilds from a row. */
  function RowDocument(row: Record): Document {
    Document(row.content, Metadata(Some(row.source), Some(row.filename), None, None, Some(row.chunkIndex), None))
  }

  /** The documents of the rows whose source is `source`, in row order. */
  function BySource(rows: seq<Record>, source: string): seq<Document>
    decreases |rows|
  {
    if rows == [] then []
    else
      var n := |rows| - 1;
      BySource(rows[..n], source) + (if rows[n].source == source then [RowDocument(rows[n])] else [])
  }

  /** A document is returned exactly when some stored row with that source
      rebuilds to it: every answer matches the source, and no matching row
      is missed. */
  lemma {:induction false} BySourceExactly(rows: seq<Record>, source: string, d: Document)
    ensures d in BySource(rows, source) <==>
      exists row :: row in rows && row.source == source && d == RowDocument(row)
    decreases |rows|
  {
    if rows != [] {
      var n := |rows| - 1;
      BySourceExactly(rows[..n], source, d);
      assert rows == rows[..n] + [rows[n]];
      if d in BySource(rows, source) && d !in BySource(rows[..n], source) {
        assert rows[n].source == source && d == RowDocument(rows[n]);
      }
    }
  }

  /** Filtering the table after an append filters both parts. */
  lemma {:induction false} BySourceAppend(before: seq<Record>, added: seq<Record>, source: string)
    ensures BySource(before + added, source) == BySource(before, source) + BySource(added, source)
    decreases |added|
  {
    if added == [] {
      assert before + added == before;
    } else {
      var n := |added| - 1;
      assert (before + added)[..|before + added| - 1] == before + added[..n];
      BySourceAppend(before, added[..n], source);
    }
  }

  /** When every row has the source asked for, the filter keeps them all,
      in order. */
  lemma {:induction false} BySourceAll(rows: seq<Record>, source: string)
    requires forall i :: 0 <= i < |rows| ==> rows[i].source == source
    ensures |BySource(rows, source)| == |rows|
    ensures forall i :: 0 <= i < |rows| ==> BySource(rows, source)[i] == RowDocument(rows[i])
    decreases |rows|
  {
    if rows != [] {
      var n := |rows| - 1;
      var prefix := rows[..n];
      assert forall i :: 0 <= i < n ==> prefix[i] == rows[i];
      BySourceAll(prefix, source);
    }
  }

  /** The records of a batch whose documents share one metadata value:
      record i holds document i's text, the shared source and file name,
      and i as chunk index. */
  lemma RecordsOfOneFile(docs: seq<Document>, m: Metadata, embed: Embedder)
    requires Records(docs, embed).Success?
    requires forall i :: 0 <= i < |docs| ==> docs[i].metadata == m
    ensures var rs := Records(docs, embed).value;
      && |rs| == |docs|
      && forall i :: 0 <= i < |rs| ==>
           && rs[i].content == docs[i].pageContent
           && rs[i].source == m.source.GetOr("")
           && rs[i].filename == m.filename.GetOr("")
           && rs[i].chunkIndex == i
  {
    RecordsShape(docs, embed);
  }

  /** Ingest then look up: the chunks `split_text_into_chunks` makes with
      metadata whose source is `source`, once `add_documents` has turned
      them into records, all come back from `get_documents_by_source`, in
      order, each with its text, its file name and its position in the
      batch as chunk index. */
  lemma ChunksRetrievableBySource(text: string, m: Metadata, split: Splitter, embed: Embedder)
    requires m.source.Some?
    requires Records(SplitTextIntoChunks(text, Some(m), split), embed).Success?
    ensures var chunks := SplitTextIntoChunks(text, Some(m), split);
      var found := BySource(Records(chunks, embed).value, m.source.value);
      && |found| == |chunks|
      && forall i :: 0 <= i < |chunks| ==>
           && found[i].pageContent == chunks[i].pageContent
           && found[i].metadata.source == m.source
           && found[i].metadata.filename == Some(m.filename.GetOr(""))
           && found[i].metadata.chunkIndex == Some(i)
  {
    var chunks := SplitTextIntoChunks(text, Some(m), split);
    ChunksCarryMetadata(text, Some(m), split);
    assert forall i :: 0 <= i < |chunks| ==> chunks[i].metadata == m by {
      forall i | 0 <= i < |chunks| ensures chunks[i].metadata == m {
        assert chunks[i] in chunks;
      }
    }
    RecordsOfOneFile(chunks, m, embed);
    BySourceAll(Records(chunks, embed).value, m.source.value);
  }

  /** The same for a processed file: every chunk of `path` comes back from
      `get_documents_by_source(path)` with the file's name. */
  lemma FileChunksRetrievableBySource(text: string, path: string, size: nat, split: Splitter, embed: Embedder)
    requires Records(SplitTextIntoChunks(text, Some(FileMetadata(path, size)), split), embed).Success?
    ensures var chunks := SplitTextIntoChunks(text, Some(FileMetadata(path, size)), split);
      var found := BySource(Records(chunks, embed).value, path);
      && |found| == |chunks|
      && forall i :: 0 <= i < |chunks| ==>
           && found[i].pageContent == chunks[i].pageContent
           && found[i].metadata.filename == Some(Name(path))
           && found[i].metadata.chunkIndex == Some(i)
  {
    ChunksRetrievableBySource(text, FileMetadata(path, size), split, embed);
  }

  /** The document `similarity_search` rebuilds from a hit: the row's
      source, file name and chunk index, and the distance as its score. */
  function HitDocument(hit: Hit): Document {
    Document(hit.row.content,
      Metadata(Some(hit.row.source), Some(hit.row.filename), None, None, Some(hit.row.chunkIndex), Some(Some(hit.distance))))
  }

  class VectorStore {
    /** Whether the `documents` table exists in the database. */
    var tableExists: bool
    /** The rows of the `documents` table, in insertion order. */
    var rows: seq<Record>

    /** A table that does not exist has no rows. */
    ghost predicate Valid()
      reads this
    {
      !tableExists ==> rows == []
    }

    /** `__init__`: connects to a database whose `documents` table holds
        `stored` (or does not exist, for `None`) and creates the table when
        it is missing. */
    constructor (stored: Option<seq<Record>>)
      ensures Valid() && tableExists
      ensures rows == stored.GetOr([])
    {
      tableExists := stored.Some?;
      rows := stored.GetOr([]);
      new;
      CreateTableIfNotExists();
    }

    /** `_create_table_if_not_exists`: an empty table when there is none;
        an existing table is left as it is. */
    method CreateTableIfNotExists()
      requires Valid()
      modifies this
      ensures Valid() && tableExists
      ensures rows == old(rows)
    {
      if !tableExists {
        tableExists := true;
        rows := [];
      }
    }

    /** `get_document_count`: the number of stored rows, 0 when the table
        does not exist (opening it raises and the error gives 0). */
    function DocumentCount(): (n: nat)
      requires Valid()
      reads this
      ensures n == |rows|
    {
      if tableExists then |rows| else 0
    }

    /** `add_documents`: nothing for an empty batch; otherwise embed every
        document (the first failure is raised and nothing is stored), open
        the table (raising when it does not exist) and append the batch.
        No deduplication: the count grows by the batch size every time. */
    method AddDocuments(docs: seq<Document>, embed: Embedder) returns (r: Result<(), Error>)
      requires Valid()
      modifies this
      ensures Valid() && tableExists == old(tableExists)
      ensures docs == [] ==> r == Success(()) && rows == old(rows)
      ensures docs != [] && Records(docs, embed).Failure? ==>
        r == Failure(Records(docs, embed).error) && rows == old(rows)
      ensures docs != [] && Records(docs, embed).Success? && !tableExists ==>
        r == Failure(TableNotFound) && rows == old(rows)
      ensures docs != [] && Records(docs, embed).Success? && tableExists ==>
        r == Success(()) && rows == old(rows) + Records(docs, embed).value
      ensures r.Success? ==> DocumentCount() == old(DocumentCount()) + |docs|
    {
      if docs == [] {
        return Success(());
      }
      var prepared := PrepareRecords(docs, embed);
      if prepared.Failure? {
        return Failure(prepared.error);
      }
      if !tableExists {
        return Failure(TableNotFound);
      }
      RecordsShape(docs, embed);
      rows := rows + prepared.value;
      r := Success(());
    }

    /** `similarity_search`: embed the query (its failure is raised), open
        the table (raising when it does not exist), keep the first `k`
        ranked hits (5 by default), and return each as a document whose
        score is the hit's distance, paired with that distance. Every answer
        is a stored row, so an empty table answers nothing, and the answers
        come nearest first. */
    method SimilaritySearch(query: string, k: nat := 5, embed: Embedder, ranking: Ranking)
      returns (r: Result<seq<(Document, real)>, Error>)
      requires FromRows(ranking) && NearestFirst(ranking)
      ensures embed(query).Failure? ==> r == Failure(EmbeddingFailed(embed(query).error))
      ensures embed(query).Success? && !tableExists ==> r == Failure(TableNotFound)
      ensures embed(query).Success? && tableExists ==>
        var hits := ranking(rows, embed(query).value);
        && r.Success?
        && |r.value| == (if k < |hits| then k else |hits|)
        && (rows == [] ==> r.value == [])
        && (forall i :: 0 <= i < |r.value| ==>
             && hits[i].row in rows
             && r.value[i].0 == HitDocument(hits[i])
             && r.value[i].1 == hits[i].distance
             && r.value[i].0.metadata.score == Some(Some(r.value[i].1)))
        && (forall i, j :: 0 <= i < j < |r.value| ==> r.value[i].1 <= r.value[j].1)
    {
      var embedding := embed(query);
      if embedding.Failure? {
        return Failure(EmbeddingFailed(embedding.error));
      }
      if !tableExists {
        return Failure(TableNotFound);
      }
      var hits := ranking(rows, embedding.value);
      var limit := if k < |hits| then k else |hits|;
      var results: seq<(Document, real)> := [];
      var i := 0;
      while i < limit
        invariant 0 <= i <= limit
        invariant |results| == i
        invariant forall j :: 0 <= j < i ==>
          results[j].0 == HitDocument(hits[j]) && results[j].1 == hits[j].distance
      {
        results := results + [(HitDocument(hits[i]), hits[i].distance)];
        i := i + 1;
      }
      r := Success(results);
    }

    /** `clear_database`: an existing table is dropped and created again
        empty; when there is no table nothing happens. */
    method ClearDatabase()
      requires Valid()
      modifies this
      ensures Valid() && tableExists == old(tableExists)
      ensures rows == []
    {
      if tableExists {
        tableExists := false;
        rows := [];
        CreateTableIfNotExists();
      }
    }

    /** `get_documents_by_source`: the documents of the rows whose source is
        `source`, in row order; raises when the table does not exist. */
    method GetDocumentsBySource(source: string) returns (r: Result<seq<Document>, Error>)
      ensures !tableExists ==> r == Failure(TableNotFound)
      ensures tableExists ==> r == Success(BySource(rows, source))
    {
      if !tableExists {
        return Failure(TableNotFound);
      }
      var documents: seq<Document> := [];
      var i := 0;
      while i < |rows|
        invariant 0 <= i <= |rows|
        invariant documents == BySource(rows[..i], source)
      {
        assert rows[..i + 1][..i] == rows[..i];
        if rows[i].source == source {
          documents := documents + [RowDocument(rows[i])];
        }
        i := i + 1;
      }
      assert rows[..i] == rows;
      r := Success(documents);
    }
  }

  /** After a clear, a batch that embeds is stored in full: the table holds
      exactly that batch and the count is its size. */
  method ClearThenAdd(store: VectorStore, docs: seq<Document>, embed: Embedder)
    requires store.Valid() && store.tableExists
    requires forall i :: 0 <= i < |docs| ==> embed(docs[i].pageContent).Success?
    modifies store
    ensures store.Valid() && store.DocumentCount() == |docs|
  {
    store.ClearDatabase();
    assert store.DocumentCount() == 0;
    RecordsShape(docs, embed);
    var r := store.AddDocuments(docs, embed);
    assert r.Success?;
  }
}
