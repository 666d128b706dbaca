/** The records of the app (documents, chunks, question/answer logs), their string
    forms, and the store that holds them, with the `post_save` receiver that chunks
    every newly created document. The relational database is modelled as three
    sequences in insertion order. */
module Models {
  import opened Wrappers
  import opened PyText
  import opened Utils

  /** An embedding as stored with its chunk. Its values are produced by the embedding
      model, which is a parameter of every operation that needs it. */
  type Vector = seq<real>

  /** A `Document` row: its primary key, display name and stored file. */
  datatype Document = Document(id: nat, name: string, file: StoredFile)

  /** A `Chunk` row. `pageNumber` is the nullable integer column. */
  datatype Chunk = Chunk(document: Document, text: string, embedding: Vector,
                         pageNumber: Option<int>, chunkIndex: int)

  /** A `QALog` row; its `created_at` timestamp is set by the database and left out. */
  datatype QALog = QALog(question: string, answer: string, user: Option<string>, sources: Option<string>)

  // ---------------------------------------------------------------- string forms

  /** `Document.__str__`: the document's name. */
  function DocumentStr(d: Document): string {
    d.name
  }

  /** `Chunk.__str__`: `"Chunk <index> of <document name>"`. The index can be read
      back from between the fixed words, and the string ends with the document's
      own string form. */
  function ChunkStr(c: Chunk): (r: string)
    ensures |r| == 6 + |IntToStr(c.chunkIndex)| + 4 + |DocumentStr(c.document)|
    ensures r[..6] == "Chunk "
    ensures ParseInt(r[6..6 + |IntToStr(c.chunkIndex)|]) == Some(c.chunkIndex)
    ensures r[6 + |IntToStr(c.chunkIndex)|..] == " of " + DocumentStr(c.document)
  {
    IntToStrRoundTrip(c.chunkIndex);
    var num := IntToStr(c.chunkIndex);
    var tail := " of " + c.document.name;
    var r := "Chunk " + num + tail;
    assert r == "Chunk " + (num + tail);
    assert r[..6] == "Chunk ";
    assert r[6..] == num + tail;
    assert r[6..][..|num|] == num;
    assert r[6 + |num|..] == tail;
    r
  }

  /** `QALog.__str__` given the rendered `created_at`: `"Q: "`, at most the first 30
      characters of the question, `"... | "`, then the timestamp. */
  function QALogStr(log: QALog, createdAt: string): (r: string)
    ensures var m := if |log.question| < 30 then |log.question| else 30;
      && |r| == 3 + m + 6 + |createdAt|
      && r[..3] == "Q: "
      && r[3..3 + m] == log.question[..m]
      && r[3 + m..3 + m + 6] == "... | "
      && r[3 + m + 6..] == createdAt
  {
    var q := Take(log.question, 30);
    var r := "Q: " + q + "... | " + createdAt;
    assert r[3..3 + |q|] == q;
    assert r[3 + |q|..3 + |q| + 6] == "... | ";
    r
  }

  // ---------------------------------------------------------------- the signal's rows

  /** The extensions the `post_save` receiver handles. Unlike the upload view it has
      no entry for `.markdown`. */
  function SignalParser(ext: string): Option<Parser> {
    if ext == ".pdf" then Some(Pdf)
    else if ext == ".md" then Some(Markdown)
    else if ext == ".txt" then Some(PlainText)
    else None
  }

  /** The rows `Chunk.objects.create` is called with, one per piece in order:
      piece `k` becomes a chunk of `doc` with index `k` and the given page number. */
  function ChunkRows(doc: Document, pieces: seq<string>, page: Option<int>, embed: string -> Vector): (rows: seq<Chunk>)
    ensures |rows| == |pieces|
    decreases |pieces|
  {
    if |pieces| == 0 then []
    else
      var k := |pieces| - 1;
      ChunkRows(doc, pieces[..k], page, embed) + [Chunk(doc, pieces[k], embed(pieces[k]), page, k)]
  }

  /** Taking one more piece adds exactly that piece's row at the end. */
  lemma ChunkRowsSnoc(doc: Document, pieces: seq<string>, page: Option<int>, embed: string -> Vector, i: nat)
    requires i < |pieces|
    ensures ChunkRows(doc, pieces[..i + 1], page, embed)
         == ChunkRows(doc, pieces[..i], page, embed) + [Chunk(doc, pieces[i], embed(pieces[i]), page, i)]
  {
    assert pieces[..i + 1][..i] == pieces[..i];
  }

  /** Row `k` holds piece `k`, its embedding, the page number and the index `k`. */
  lemma {:induction false} ChunkRowsAt(doc: Document, pieces: seq<string>, page: Option<int>,
                                       embed: string -> Vector, k: nat)
    requires k < |pieces|
    ensures ChunkRows(doc, pieces, page, embed)[k] == Chunk(doc, pieces[k], embed(pieces[k]), page, k)
    decreases |pieces|
  {
    var n := |pieces| - 1;
    if k < n {
      ChunkRowsAt(doc, pieces[..n], page, embed, k);
    }
  }

  /** `chunk_text` of the text the parser makes of the document's stored file. */
  function DocumentPieces(parser: Parser, doc: Document): seq<string> {
    ChunkText(ParseFile(parser, doc.file).text)
  }

  /** The rows the `post_save` receiver creates for a new document: the chunks of the
      parsed text, with no page number; none for an extension it does not handle. */
  function SignalRows(doc: Document, embed: string -> Vector): seq<Chunk> {
    match SignalParser(FileExtension(doc.file.path))
    case None => []
    case Some(parser) => ChunkRows(doc, DocumentPieces(parser, doc), None, embed)
  }

  /** Every row that the ingestion paths store holds a non-empty, trimmed text. */
  ghost predicate TrimmedText(c: Chunk) {
    c.text != [] && Strip(c.text) == c.text
  }

  /** Documents carry the ids 1, 2, ... in creation order. */
  ghost predicate IdsInOrder(documents: seq<Document>) {
    forall i :: 0 <= i < |documents| ==> documents[i].id == i + 1
  }

  /** Every chunk belongs to one of `documents` and holds a trimmed, non-empty text. */
  ghost predicate ChunksWellFormed(documents: seq<Document>, chunks: seq<Chunk>) {
    forall c :: c in chunks ==> c.document in documents && TrimmedText(c)
  }

  /** Appending the rows of trimmed pieces of a stored document keeps every chunk
      well formed. */
  lemma ChunkRowsWellFormed(documents: seq<Document>, chunks: seq<Chunk>, doc: Document,
                            pieces: seq<string>, page: Option<int>, embed: string -> Vector)
    requires ChunksWellFormed(documents, chunks) && doc in documents
    requires forall t :: t in pieces ==> t != [] && Strip(t) == t
    ensures ChunksWellFormed(documents, chunks + ChunkRows(doc, pieces, page, embed))
  {
    var rows := ChunkRows(doc, pieces, page, embed);
    forall c | c in rows
      ensures c.document in documents && TrimmedText(c)
    {
      var k :| 0 <= k < |rows| && rows[k] == c;
      ChunkRowsAt(doc, pieces, page, embed, k);
      assert pieces[k] in pieces;
    }
  }

  // ---------------------------------------------------------------- the store

  /** The three tables. Documents get the ids 1, 2, ... in creation order, every
      chunk belongs to a stored document, and every chunk's text is non-empty and
      trimmed. */
  class KnowledgeBase {
    var documents: seq<Document>
    var chunks: seq<Chunk>
    var logs: seq<QALog>

    ghost predicate Valid()
      reads this
    {
      IdsInOrder(documents) && ChunksWellFormed(documents, chunks)
    }

    constructor ()
      ensures Valid()
      ensures documents == [] && chunks == [] && logs == []
    {
      documents, chunks, logs := [], [], [];
    }

    /** `Document.objects.create(name=..., file=...)`: stores the row under the next
        id, then fires `post_save` with `created=True`. */
    method CreateDocument(name: string, file: StoredFile, embed: string -> Vector) returns (doc: Document)
      requires Valid()
      modifies this
      ensures Valid()
      ensures doc == Document(|old(documents)| + 1, name, file)
      ensures documents == old(documents) + [doc]
      ensures chunks == old(chunks) + SignalRows(doc, embed)
      ensures logs == old(logs)
    {
      doc := Document(|documents| + 1, name, file);
      documents := documents + [doc];
      CreateChunksAndEmbeddings(doc, true, embed);
    }

    /** The `post_save` receiver `create_chunks_and_embeddings`: for a newly created
        document whose extension it handles, stores one chunk per piece of
        `chunk_text`, in order, with `page_number=None`; otherwise nothing. */
    method CreateChunksAndEmbeddings(instance: Document, created: bool, embed: string -> Vector)
      requires Valid() && instance in documents
      modifies this
      ensures Valid()
      ensures documents == old(documents) && logs == old(logs)
      ensures chunks == old(chunks) + (if created then SignalRows(instance, embed) else [])
    {
      if !created {
        return;
      }
      var ext := FileExtension(instance.file.path);
      var parser := SignalParser(ext);
      if parser.None? {
        return;
      }
      var parsed := Parse(parser.value, instance.file);
      var pieces := ChunkText(parsed.text);
      ChunksAreTrimmed(parsed.text);
      StoreRows(instance, pieces, None, embed);
    }

    /** The receiver's loop, on a well-formed store: the rows of trimmed pieces of a
        stored document keep the store invariant. */
    method StoreRows(doc: Document, pieces: seq<string>, page: Option<int>, embed: string -> Vector)
      requires Valid() && doc in documents
      requires forall t :: t in pieces ==> t != [] && Strip(t) == t
      modifies this
      ensures Valid()
      ensures documents == old(documents) && logs == old(logs)
      ensures chunks == old(chunks) + ChunkRows(doc, pieces, page, embed)
    {
      ChunkRowsWellFormed(documents, chunks, doc, pieces, page, embed);
      AppendRows(doc, pieces, page, embed);
    }

    /** The loop itself: `Chunk.objects.create` once per piece, in order, with the
        piece's embedding, the given page number and the piece's index. */
    method AppendRows(doc: Document, pieces: seq<string>, page: Option<int>, embed: string -> Vector)
      modifies this
      ensures documents == old(documents) && logs == old(logs)
      ensures chunks == old(chunks) + ChunkRows(doc, pieces, page, embed)
    {
      ghost var rows: seq<Chunk> := [];
      for idx := 0 to |pieces|
        invariant documents == old(documents) && logs == old(logs)
        invariant rows == ChunkRows(doc, pieces[..idx], page, embed)
        invariant chunks == old(chunks) + rows
      {
        var chunk := pieces[idx];
        var embedding := embed(chunk);
        ChunkRowsSnoc(doc, pieces, page, embed, idx);
        var row := Chunk(doc, chunk, embedding, page, idx);
        rows := rows + [row];
        chunks := chunks + [row];
      }
      assert pieces[..|pieces|] == pieces;
    }
  }

  /** Saving a document again (`created=False`) adds no chunks. */
  method ResaveAddsNothing(kb: KnowledgeBase, doc: Document, embed: string -> Vector)
    requires kb.Valid() && doc in kb.documents
    modifies kb
    ensures kb.chunks == old(kb.chunks)
  {
    kb.CreateChunksAndEmbeddings(doc, false, embed);
  }

  /** The receiver skips `.markdown`: a document stored under that extension gets no
      rows from it. */
  lemma SignalSkipsMarkdown(doc: Document, embed: string -> Vector)
    requires FileExtension(doc.file.path) == ".markdown"
    ensures SignalRows(doc, embed) == []
  {
  }
}
