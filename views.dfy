/** The two request handlers of the app and the index builder between them: the
    upload view (extension dispatch, parsing, chunk creation), the rebuild of the
    vector index from every stored chunk, and the question view (label filter,
    deduplication by text, choice of the answer, citation, logging). The nearest-
    neighbour search itself is outside the model: its result, the sequence of labels,
    is an input. */
module Views {
  import opened Wrappers
  import opened PyText
  import opened Utils
  import opened Models

  const NoFileError: string := "No file provided."
  const UnsupportedTypeError: string := "Unsupported file type."
  const NoQuestionError: string := "No question provided."
  const NoKnowledgeBaseError: string := "No knowledge base available."
  /** The answer given when no chunk survives the filter. */
  const DontKnow: string := "I don't know."

  // ================================================================ upload

  /** The upload view's dispatch table, on the lower-cased extension. */
  function ViewParser(ext: string): Option<Parser> {
    if ext == ".pdf" then Some(Pdf)
    else if ext in [".md", ".markdown"] then Some(Markdown)
    else if ext in [".txt"] then Some(PlainText)
    else None
  }

  /** The view accepts exactly `.pdf`, `.md`, `.markdown` and `.txt`; the
      `post_save` receiver's table is the same except that it rejects `.markdown`. */
  lemma DispatchTables(ext: string)
    ensures ViewParser(ext).Some? <==> ext == ".pdf" || ext == ".md" || ext == ".markdown" || ext == ".txt"
    ensures ViewParser(ext) == Some(Pdf) <==> ext == ".pdf"
    ensures ViewParser(ext) == Some(Markdown) <==> ext == ".md" || ext == ".markdown"
    ensures ViewParser(ext) == Some(PlainText) <==> ext == ".txt"
    ensures SignalParser(ext) == if ext == ".markdown" then None else ViewParser(ext)
  {
  }

  /** The extension is compared after lower-casing, so an upper-case `.PDF` goes to
      the PDF parser; a name whose only dot is its first character has no extension. */
  lemma ExtensionExamples()
    ensures FileExtension("a.PDF") == ".pdf"
    ensures ViewParser(FileExtension("a.PDF")) == Some(Pdf)
    ensures FileExtension(".md") == ""
  {
    var p := "a.PDF";
    assert LastIndexOf(p, '/') == -1;
    assert LastIndexOf("a.", '.') == 1;
    assert LastIndexOf("a.P", '.') == 1 by { assert "a.P"[..2] == "a."; }
    assert LastIndexOf("a.PD", '.') == 1 by { assert "a.PD"[..3] == "a.P"; }
    assert LastIndexOf(p, '.') == 1 by { assert p[..4] == "a.PD"; }
    assert p[0] != '.';
    assert SplitExt(p) == p[1..] == ".PDF";
    assert Lower(".PDF") == ".pdf";
    assert LastIndexOf(".md", '/') == -1;
    assert LastIndexOf(".md", '.') == 0;
  }

  /** A stored upload path in the `documents/` directory gets its file's suffix. */
  lemma StoredPathExtension()
    ensures FileExtension("/media/documents/report.txt") == ".txt"
    ensures ViewParser(FileExtension("/media/documents/report.txt")) == Some(PlainText)
  {
    SplitExtOfName("/media/documents", "report", "txt");
    assert "/media/documents" + "/" + "report" + "." + "txt" == "/media/documents/report.txt";
    assert Lower(".txt") == ".txt";
  }

  /** The rows the upload view's loop creates from `chunk_text`'s pieces: a piece
      that is blank after stripping is skipped, every other piece becomes a chunk with
      page number 1 and the piece's position as its index. */
  function UploadLoopRows(doc: Document, pieces: seq<string>, embed: string -> Vector): seq<Chunk>
    decreases |pieces|
  {
    if |pieces| == 0 then []
    else
      var k := |pieces| - 1;
      UploadLoopRows(doc, pieces[..k], embed)
        + (if Strip(pieces[k]) == [] then [] else [Chunk(doc, pieces[k], embed(pieces[k]), Some(1), k)])
  }

  /** When no piece is blank the skip never fires (on `chunk_text`'s output it never
      is): the loop creates one row per piece, each with page number 1, whatever the
      page map says. */
  lemma {:induction false} UploadLoopSkipsNothing(doc: Document, pieces: seq<string>, embed: string -> Vector)
    requires forall t :: t in pieces ==> Strip(t) != []
    ensures UploadLoopRows(doc, pieces, embed) == ChunkRows(doc, pieces, Some(1), embed)
    decreases |pieces|
  {
    if |pieces| > 0 {
      var k := |pieces| - 1;
      var init := pieces[..k];
      var last := pieces[k];
      assert forall t :: t in init ==> Strip(t) != [] by {
        forall t | t in init ensures Strip(t) != [] {
          assert t in pieces;
        }
      }
      UploadLoopSkipsNothing(doc, init, embed);
      assert Strip(last) != [] by { assert last in pieces; }
    }
  }

  /** The rows the upload view's own loop creates for a stored document. */
  function ViewRows(doc: Document, embed: string -> Vector): seq<Chunk> {
    match ViewParser(FileExtension(doc.file.path))
    case None => []
    case Some(parser) => UploadLoopRows(doc, DocumentPieces(parser, doc), embed)
  }

  /** Every row one upload adds: first the `post_save` receiver's, fired by
      `Document.objects.create`, then the view's own. */
  function UploadRows(doc: Document, embed: string -> Vector): seq<Chunk> {
    SignalRows(doc, embed) + ViewRows(doc, embed)
  }

  /** An upload the view cannot parse keeps only the receiver's rows. */
  lemma UnsupportedUploadRows(doc: Document, embed: string -> Vector)
    requires ViewParser(FileExtension(doc.file.path)).None?
    ensures UploadRows(doc, embed) == SignalRows(doc, embed)
  {
    assert ViewRows(doc, embed) == [];
  }

  /** How many chunks one upload writes depends on the extension: `.pdf`, `.md` and
      `.txt` get every piece twice (page `None`, then page 1), `.markdown` only the
      page-1 rows, any other extension none. */
  lemma UploadRowsByExtension(doc: Document, embed: string -> Vector)
    ensures var ext := FileExtension(doc.file.path);
      && (SignalParser(ext).Some? ==>
            var pieces := DocumentPieces(SignalParser(ext).value, doc);
            UploadRows(doc, embed) == ChunkRows(doc, pieces, None, embed) + ChunkRows(doc, pieces, Some(1), embed))
      && (ext == ".markdown" ==>
            UploadRows(doc, embed) == ChunkRows(doc, DocumentPieces(Markdown, doc), Some(1), embed))
      && (ViewParser(ext).None? ==> UploadRows(doc, embed) == [])
  {
    var ext := FileExtension(doc.file.path);
    DispatchTables(ext);
    if ViewParser(ext).Some? {
      var parser := ViewParser(ext).value;
      var pieces := DocumentPieces(parser, doc);
      ChunksAreTrimmed(ParseFile(parser, doc.file).text);
      UploadLoopSkipsNothing(doc, pieces, embed);
      assert ViewRows(doc, embed) == ChunkRows(doc, pieces, Some(1), embed);
      if ext == ".markdown" {
        assert SignalRows(doc, embed) == [];
      } else {
        assert SignalParser(ext) == Some(parser);
        assert SignalRows(doc, embed) == ChunkRows(doc, pieces, None, embed);
      }
    }
  }

  /** The doubled rows of a `.pdf`, `.md` or `.txt` upload: 2n chunks, row `i` and
      row `n + i` hold piece `i` with index `i`, the first without a page number and
      the second on page 1, and no other two rows share an index. */
  lemma DoubleIngestion(doc: Document, pieces: seq<string>, embed: string -> Vector)
    ensures var rows := ChunkRows(doc, pieces, None, embed) + ChunkRows(doc, pieces, Some(1), embed);
      && |rows| == 2 * |pieces|
      && (forall i :: 0 <= i < |pieces| ==>
            && rows[i] == Chunk(doc, pieces[i], embed(pieces[i]), None, i)
            && rows[|pieces| + i] == Chunk(doc, pieces[i], embed(pieces[i]), Some(1), i))
      && (forall j, k :: 0 <= j < k < |rows| && rows[j].chunkIndex == rows[k].chunkIndex ==>
            k == j + |pieces| && rows[j].pageNumber == None && rows[k].pageNumber == Some(1))
  {
    var n := |pieces|;
    var first := ChunkRows(doc, pieces, None, embed);
    var second := ChunkRows(doc, pieces, Some(1), embed);
    var rows := first + second;
    forall i | 0 <= i < n
      ensures rows[i] == Chunk(doc, pieces[i], embed(pieces[i]), None, i)
      ensures rows[n + i] == Chunk(doc, pieces[i], embed(pieces[i]), Some(1), i)
    {
      ChunkRowsAt(doc, pieces, None, embed, i);
      ChunkRowsAt(doc, pieces, Some(1), embed, i);
    }
    forall j | 0 <= j < |rows|
      ensures rows[j].chunkIndex == (if j < n then j else j - n)
      ensures rows[j].pageNumber == (if j < n then None else Some(1))
    {
      if j < n {
        ChunkRowsAt(doc, pieces, None, embed, j);
        assert rows[j] == first[j];
      } else {
        ChunkRowsAt(doc, pieces, Some(1), embed, j - n);
        assert rows[j] == second[j - n];
      }
    }
  }

  /** The multipart file field as the view receives it, and where storage put it. */
  datatype UploadedFile = UploadedFile(name: string, stored: StoredFile)

  /** What the upload view answers: an error, or the new document. */
  datatype UploadReply = UploadRejected(error: string) | Uploaded(document: Document)

  /** `DocumentUploadView.post`. A missing file, or one whose name is empty (a file
      object is false exactly then), is refused before anything is stored. Otherwise
      the document is created, and with it the receiver's chunks; an unsupported
      extension is refused only after that, and the view's own loop then stores one
      row per non-blank piece of `chunk_text`, on page 1. */
  method UploadDocument(kb: KnowledgeBase, upload: Option<UploadedFile>, embed: string -> Vector)
    returns (reply: UploadReply)
    requires kb.Valid()
    modifies kb
    ensures kb.Valid()
    ensures kb.logs == old(kb.logs)
    ensures upload.None? || upload.value.name == "" ==>
      reply == UploadRejected(NoFileError) && kb.documents == old(kb.documents) && kb.chunks == old(kb.chunks)
    ensures upload.Some? && upload.value.name != "" ==>
      var doc := Document(|old(kb.documents)| + 1, upload.value.name, upload.value.stored);
      && kb.documents == old(kb.documents) + [doc]
      && kb.chunks == old(kb.chunks) + UploadRows(doc, embed)
      && reply == if ViewParser(FileExtension(doc.file.path)).Some? then Uploaded(doc)
                  else UploadRejected(UnsupportedTypeError)
  {
    if upload.None? || upload.value.name == "" {
      return UploadRejected(NoFileError);
    }
    ghost var start := kb.chunks;
    var document := kb.CreateDocument(upload.value.name, upload.value.stored, embed);
    var filePath := document.file.path;
    var ext := FileExtension(filePath);
    var parser := ViewParser(ext);
    if parser.None? {
      UnsupportedUploadRows(document, embed);
      return UploadRejected(UnsupportedTypeError);
    }
    StoreParsedUpload(kb, document, parser.value, embed);
    AppendAssociative(start, SignalRows(document, embed), ViewRows(document, embed));
    reply := Uploaded(document);
  }

  lemma AppendAssociative<T>(a: seq<T>, b: seq<T>, c: seq<T>)
    ensures (a + b) + c == a + (b + c)
  {
  }

  /** The view's parse, `chunk_text` and loop for a document it can parse. */
  method StoreParsedUpload(kb: KnowledgeBase, document: Document, parser: Parser, embed: string -> Vector)
    requires kb.Valid() && document in kb.documents
    requires ViewParser(FileExtension(document.file.path)) == Some(parser)
    modifies kb
    ensures kb.Valid()
    ensures kb.documents == old(kb.documents) && kb.logs == old(kb.logs)
    ensures kb.chunks == old(kb.chunks) + ViewRows(document, embed)
  {
    var parsed := Parse(parser, document.file);
    var pieces := ChunkText(parsed.text);
    assert ChunksWellFormed(kb.documents, kb.chunks + UploadLoopRows(document, pieces, embed)) by {
      ChunksAreTrimmed(parsed.text);
      UploadLoopSkipsNothing(document, pieces, embed);
      ChunkRowsWellFormed(kb.documents, kb.chunks, document, pieces, Some(1), embed);
    }
    StoreUploadedChunks(kb, document, pieces, embed);
  }

  /** The upload view's loop over `enumerate(chunks)`: skips a piece that is blank
      after stripping, otherwise embeds it and creates its row on page 1 with the
      piece's position as index. */
  method StoreUploadedChunks(kb: KnowledgeBase, document: Document, pieces: seq<string>, embed: string -> Vector)
    modifies kb
    ensures kb.documents == old(kb.documents) && kb.logs == old(kb.logs)
    ensures kb.chunks == old(kb.chunks) + UploadLoopRows(document, pieces, embed)
  {
    var embeddings: seq<Vector> := [];
    ghost var rows: seq<Chunk> := [];
    for idx := 0 to |pieces|
      invariant kb.documents == old(kb.documents) && kb.logs == old(kb.logs)
      invariant rows == UploadLoopRows(document, pieces[..idx], embed)
      invariant kb.chunks == old(kb.chunks) + rows
    {
      var chunk := pieces[idx];
      assert pieces[..idx + 1][..idx] == pieces[..idx];
      if Strip(chunk) != [] {
        var emb := embed(chunk);
        embeddings := embeddings + [emb];
        var pageNumber := 1;
        var row := Chunk(document, chunk, emb, Some(pageNumber), idx);
        rows := rows + [row];
        kb.chunks := kb.chunks + [row];
      }
    }
    assert pieces[..|pieces|] == pieces;
  }

  // ================================================================ index

  /** The flat index `build_faiss_index` builds: the vectors in the order added, so
      label `i` names the `i`-th. Distances and search are outside the model. */
  datatype FlatIndex = FlatIndex(vectors: seq<Vector>)

  /** `build_faiss_index_from_db`: no index and no references for an empty store;
      otherwise one reference per stored chunk, in store order, and an index whose
      `i`-th vector is the embedding of reference `i`. */
  method BuildFaissIndexFromDb(kb: KnowledgeBase) returns (index: Option<FlatIndex>, chunkRefs: seq<Chunk>)
    ensures |kb.chunks| == 0 ==> index == None && chunkRefs == []
    ensures |kb.chunks| > 0 ==>
      && chunkRefs == kb.chunks
      && index.Some? && |index.value.vectors| == |chunkRefs|
      && forall i :: 0 <= i < |chunkRefs| ==> index.value.vectors[i] == chunkRefs[i].embedding
  {
    var chunks := kb.chunks;
    var embeddings: seq<Vector> := [];
    chunkRefs := [];
    for i := 0 to |chunks|
      invariant |embeddings| == i && chunkRefs == chunks[..i]
      invariant forall k :: 0 <= k < i ==> embeddings[k] == chunks[k].embedding
    {
      var emb := chunks[i].embedding;
      embeddings := embeddings + [emb];
      chunkRefs := chunkRefs + [chunks[i]];
    }
    assert chunks[..|chunks|] == chunks;
    if |embeddings| == 0 {
      return None, [];
    }
    index := Some(FlatIndex(embeddings));
  }

  // ================================================================ answer selection

  /** The labels `[i for i in labels if i < n]` lets through, in order. */
  function KeptLabels(labels: seq<int>, n: nat): (kept: seq<int>)
    ensures |kept| <= |labels|
    ensures forall k :: 0 <= k < |kept| ==> kept[k] < n
    decreases |labels|
  {
    if |labels| == 0 then []
    else (if labels[0] < n then [labels[0]] else []) + KeptLabels(labels[1..], n)
  }

  /** Python indexing of a list of length `n` by a label the filter kept. */
  function ResolveLabel(l: int, n: nat): (i: nat)
    requires 0 <= l + n && l < n
    ensures i < n
    ensures l >= 0 ==> i == l
    ensures l < 0 ==> i == n + l
  {
    if l >= 0 then l else n + l
  }

  /** The filter keeps exactly the labels below `n`. */
  lemma {:induction false} KeptLabelsSpec(labels: seq<int>, n: nat)
    ensures forall l :: l in KeptLabels(labels, n) <==> l in labels && l < n
    decreases |labels|
  {
    if |labels| > 0 {
      KeptLabelsSpec(labels[1..], n);
      assert labels == [labels[0]] + labels[1..];
    }
  }

  /** The positions of `labels` from `from` on whose label is below `n`, in order. */
  ghost function KeptPositions(labels: seq<int>, n: nat, from: nat): seq<int>
    requires from <= |labels|
    decreases |labels| - from
  {
    if from == |labels| then []
    else (if labels[from] < n then [from] else []) + KeptPositions(labels, n, from + 1)
  }

  /** The filtered labels of `labels[from..]` are the labels at `KeptPositions`,
      which increase and hold every position from `from` on with a label below `n`. */
  lemma {:induction false} KeptPositionsSelect(labels: seq<int>, n: nat, from: nat)
    requires from <= |labels|
    ensures var pos := KeptPositions(labels, n, from); var kept := KeptLabels(labels[from..], n);
      && |pos| == |kept|
      && (forall k :: 0 <= k < |pos| ==> from <= pos[k] < |labels| && kept[k] == labels[pos[k]])
      && (forall k, l :: 0 <= k < l < |pos| ==> pos[k] < pos[l])
      && (forall j :: from <= j < |labels| && labels[j] < n ==> j in pos)
    decreases |labels| - from
  {
    if from < |labels| {
      KeptPositionsSelect(labels, n, from + 1);
      assert labels[from..][1..] == labels[from + 1..];
      assert labels[from..][0] == labels[from];
    }
  }

  /** `[i for i in labels if i < n]` keeps order and repeats: the kept labels are the
      labels at increasing positions, and every position whose label is below `n` is
      one of them. */
  lemma KeptLabelsPositions(labels: seq<int>, n: nat)
    ensures exists pos: seq<int> ::
      && |pos| == |KeptLabels(labels, n)|
      && (forall k :: 0 <= k < |pos| ==> 0 <= pos[k] < |labels| && KeptLabels(labels, n)[k] == labels[pos[k]])
      && (forall k, l :: 0 <= k < l < |pos| ==> pos[k] < pos[l])
      && (forall j :: 0 <= j < |labels| && labels[j] < n ==> j in pos)
  {
    KeptPositionsSelect(labels, n, 0);
    assert labels[0..] == labels;
  }

  /** `[chunk_refs[i] for i in labels if i < len(chunk_refs)]`: `None` when some kept
      label is below `-len(chunk_refs)`, where Python raises `IndexError`. */
  function SelectTop(refs: seq<Chunk>, labels: seq<int>): (top: Option<seq<Chunk>>)
    decreases |labels|
  {
    if |labels| == 0 then Some([])
    else
      var l := labels[0];
      var rest := SelectTop(refs, labels[1..]);
      if l >= |refs| then rest
      else if l + |refs| < 0 then None
      else match rest
        case None => None
        case Some(t) => Some([refs[ResolveLabel(l, |refs|)]] + t)
  }

  /** The selection fails exactly when some label is below `-len(chunk_refs)`;
      otherwise it holds, in order, the chunk each kept label names, a negative label
      counting from the end. */
  lemma SelectTopSpec(refs: seq<Chunk>, labels: seq<int>)
    ensures var top := SelectTop(refs, labels);
      && (top.None? <==> exists k :: 0 <= k < |labels| && labels[k] + |refs| < 0)
      && (top.Some? ==>
            var kept := KeptLabels(labels, |refs|);
            && |top.value| == |kept|
            && forall k :: 0 <= k < |kept| ==>
                 0 <= kept[k] + |refs| && top.value[k] == refs[ResolveLabel(kept[k], |refs|)])
  {
    SelectTopFails(refs, labels);
    if SelectTop(refs, labels).Some? {
      SelectTopKept(refs, labels);
    }
  }

  /** The selection fails exactly when some label is below `-len(chunk_refs)`. */
  lemma {:induction false} SelectTopFails(refs: seq<Chunk>, labels: seq<int>)
    ensures SelectTop(refs, labels).None? <==> exists k :: 0 <= k < |labels| && labels[k] + |refs| < 0
    decreases |labels|
  {
    if |labels| > 0 {
      var rest := labels[1..];
      SelectTopFails(refs, rest);
      if SelectTop(refs, rest).None? {
        var k :| 0 <= k < |rest| && rest[k] + |refs| < 0;
        assert labels[k + 1] + |refs| < 0;
      } else {
        assert forall k :: 0 <= k < |rest| ==> rest[k] == labels[k + 1];
      }
    }
  }

  /** A successful selection holds, in order, the chunk each kept label names. */
  lemma {:induction false} SelectTopKept(refs: seq<Chunk>, labels: seq<int>)
    requires SelectTop(refs, labels).Some?
    ensures var top := SelectTop(refs, labels).value; var kept := KeptLabels(labels, |refs|);
      && |top| == |kept|
      && forall k :: 0 <= k < |kept| ==> 0 <= kept[k] + |refs| && top[k] == refs[ResolveLabel(kept[k], |refs|)]
    decreases |labels|
  {
    if |labels| > 0 {
      var rest := labels[1..];
      var l := labels[0];
      assert SelectTop(refs, rest).Some?;
      SelectTopKept(refs, rest);
      if l < |refs| {
        assert KeptLabels(labels, |refs|) == [l] + KeptLabels(rest, |refs|);
        assert SelectTop(refs, labels).value == [refs[ResolveLabel(l, |refs|)]] + SelectTop(refs, rest).value;
      } else {
        assert KeptLabels(labels, |refs|) == KeptLabels(rest, |refs|);
      }
    }
  }

  /** A kept label in front puts its chunk in front. */
  lemma SelectTopCons(refs: seq<Chunk>, labels: seq<int>, rest: seq<Chunk>)
    requires |labels| > 0 && 0 <= labels[0] + |refs| && labels[0] < |refs|
    requires SelectTop(refs, labels[1..]) == Some(rest)
    ensures SelectTop(refs, labels) == Some([refs[ResolveLabel(labels[0], |refs|)]] + rest)
  {
  }

  /** Negative labels pass the filter and select from the end. */
  lemma MinusOneSelectsLast(refs: seq<Chunk>)
    requires |refs| > 0
    ensures SelectTop(refs, [0, -1]) == Some([refs[0], refs[|refs| - 1]])
  {
    var n := |refs|;
    var labels := [0, -1];
    assert labels[1..][1..] == [];
    assert ResolveLabel(-1, n) == n - 1 && ResolveLabel(0, n) == 0;
    SelectTopCons(refs, labels[1..], []);
    assert [refs[n - 1]] + [] == [refs[n - 1]];
    SelectTopCons(refs, labels, [refs[n - 1]]);
    assert [refs[0]] + [refs[n - 1]] == [refs[0], refs[n - 1]];
  }

  /** With one stored chunk, the search's `-1` padding repeats that chunk. */
  lemma PaddingRepeatsSingleChunk(c: Chunk)
    ensures SelectTop([c], [0, -1, -1, -1, -1]) == Some([c, c, c, c, c])
  {
    var labels := [0, -1, -1, -1, -1];
    assert labels[1..][1..][1..][1..][1..] == [];
    assert ResolveLabel(-1, 1) == 0 && ResolveLabel(0, 1) == 0;
    SelectTopCons([c], labels[1..][1..][1..][1..], []);
    assert [c] + [] == [c];
    SelectTopCons([c], labels[1..][1..][1..], [c]);
    assert [c] + [c] == [c, c];
    SelectTopCons([c], labels[1..][1..], [c, c]);
    assert [c] + [c, c] == [c, c, c];
    SelectTopCons([c], labels[1..], [c, c, c]);
    assert [c] + [c, c, c] == [c, c, c, c];
    SelectTopCons([c], labels, [c, c, c, c]);
    assert [c] + [c, c, c, c] == [c, c, c, c, c];
  }

  /** The texts of a list of chunks. */
  function Texts(cs: seq<Chunk>): set<string> {
    set c | c in cs :: c.text
  }

  /** The deduplication the question view performs: each chunk whose text has not
      been seen earlier in the list, in order. */
  function FirstOccurrences(cs: seq<Chunk>): seq<Chunk>
    decreases |cs|
  {
    if |cs| == 0 then []
    else
      var init := cs[..|cs| - 1];
      var c := cs[|cs| - 1];
      FirstOccurrences(init) + (if c.text in Texts(init) then [] else [c])
  }

  /** `cs[i]` is the first chunk of `cs` with its text. */
  ghost predicate IsFirstOccurrence(cs: seq<Chunk>, i: int) {
    0 <= i < |cs| && forall j :: 0 <= j < i ==> cs[j].text != cs[i].text
  }

  lemma TextsSnoc(cs: seq<Chunk>, i: nat)
    requires i < |cs|
    ensures Texts(cs[..i + 1]) == Texts(cs[..i]) + {cs[i].text}
  {
    assert cs[..i + 1] == cs[..i] + [cs[i]];
  }

  /** The dedup loop: a `seen` set of texts and the list of kept chunks. */
  method DeduplicateByText(topChunks: seq<Chunk>) returns (uniqueChunks: seq<Chunk>)
    ensures uniqueChunks == FirstOccurrences(topChunks)
  {
    var seen: set<string> := {};
    uniqueChunks := [];
    for i := 0 to |topChunks|
      invariant seen == Texts(topChunks[..i])
      invariant uniqueChunks == FirstOccurrences(topChunks[..i])
    {
      var c := topChunks[i];
      assert topChunks[..i + 1][..i] == topChunks[..i];
      if c.text !in seen {
        uniqueChunks := uniqueChunks + [c];
        seen := seen + {c.text};
      }
      TextsSnoc(topChunks, i);
    }
    assert topChunks[..|topChunks|] == topChunks;
  }

  /** No two chunks of `cs` share a text. */
  ghost predicate DistinctTexts(cs: seq<Chunk>) {
    forall k, l :: 0 <= k < l < |cs| ==> cs[k].text != cs[l].text
  }

  /** After deduplication no two chunks share a text. */
  lemma {:induction false} FirstOccurrencesDistinct(cs: seq<Chunk>)
    ensures DistinctTexts(FirstOccurrences(cs))
    decreases |cs|
  {
    if |cs| > 0 {
      var init := cs[..|cs| - 1];
      FirstOccurrencesDistinct(init);
      FirstOccurrencesFromInit(init);
      var u := FirstOccurrences(init);
      var c := cs[|cs| - 1];
      var v := FirstOccurrences(cs);
      if c.text !in Texts(init) {
        assert v == u + [c];
        forall k, l | 0 <= k < l < |v| ensures v[k].text != v[l].text {
          assert v[k] == u[k] && u[k] in u;
          assert u[k] in init;
          assert u[k].text in Texts(init);
          if l < |u| {
            assert v[l] == u[l];
          }
        }
      } else {
        assert v == u;
      }
    }
  }

  /** Every chunk kept from `cs` is a chunk of `cs`. */
  lemma {:induction false} FirstOccurrencesFromInit(cs: seq<Chunk>)
    ensures forall d :: d in FirstOccurrences(cs) ==> d in cs
    decreases |cs|
  {
    if |cs| > 0 {
      FirstOccurrencesFromInit(cs[..|cs| - 1]);
    }
  }

  /** A first occurrence in a prefix stays one in the whole list. */
  lemma FirstOccurrenceInPrefix(cs: seq<Chunk>, m: nat, i: int)
    requires m <= |cs| && IsFirstOccurrence(cs[..m], i)
    ensures IsFirstOccurrence(cs, i)
  {
    assert forall j :: 0 <= j <= i ==> cs[..m][j] == cs[j];
  }

  /** The positions `FirstOccurrences` keeps, in order. */
  ghost function FirstPositions(cs: seq<Chunk>): seq<int>
    decreases |cs|
  {
    if |cs| == 0 then []
    else
      var n := |cs| - 1;
      FirstPositions(cs[..n]) + (if cs[n].text in Texts(cs[..n]) then [] else [n])
  }

  /** `FirstOccurrences` lists the chunks at `FirstPositions`, which increase. */
  lemma {:induction false} FirstPositionsSelect(cs: seq<Chunk>)
    ensures var pos := FirstPositions(cs); var u := FirstOccurrences(cs);
      && |pos| == |u|
      && (forall k :: 0 <= k < |pos| ==> 0 <= pos[k] < |cs| && u[k] == cs[pos[k]])
      && (forall k, l :: 0 <= k < l < |pos| ==> pos[k] < pos[l])
    decreases |cs|
  {
    if |cs| > 0 {
      var n := |cs| - 1;
      var init := cs[..n];
      FirstPositionsSelect(init);
      assert forall k :: 0 <= k < n ==> init[k] == cs[k];
    }
  }

  /** The positions kept are exactly the first occurrences. */
  lemma {:induction false} FirstPositionsExact(cs: seq<Chunk>)
    ensures forall i :: IsFirstOccurrence(cs, i) <==> i in FirstPositions(cs)
    decreases |cs|
  {
    if |cs| > 0 {
      var n := |cs| - 1;
      var init := cs[..n];
      FirstPositionsExact(init);
      FirstPositionsBelow(init);
      forall i | 0 <= i < n
        ensures IsFirstOccurrence(cs, i) <==> IsFirstOccurrence(init, i)
      {
        assert forall j :: 0 <= j <= i ==> init[j] == cs[j];
      }
      LastIsFirstOccurrence(cs);
    }
  }

  /** Every kept position lies inside the list. */
  lemma FirstPositionsBelow(cs: seq<Chunk>)
    ensures forall i :: i in FirstPositions(cs) ==> 0 <= i < |cs|
  {
    FirstPositionsSelect(cs);
    var p := FirstPositions(cs);
    forall i | i in p ensures 0 <= i < |cs| {
      var k :| 0 <= k < |p| && p[k] == i;
    }
  }

  /** The last chunk is a first occurrence exactly when no earlier chunk has its text. */
  lemma LastIsFirstOccurrence(cs: seq<Chunk>)
    requires |cs| > 0
    ensures IsFirstOccurrence(cs, |cs| - 1) <==> cs[|cs| - 1].text !in Texts(cs[..|cs| - 1])
  {
    var n := |cs| - 1;
    var init := cs[..n];
    if cs[n].text in Texts(init) {
      var d :| d in init && d.text == cs[n].text;
      var j :| 0 <= j < n && init[j] == d;
      assert cs[j].text == cs[n].text;
    } else {
      forall j | 0 <= j < n ensures cs[j].text != cs[n].text {
        assert init[j] in init;
      }
    }
  }

  /** Deduplication keeps a subsequence of its input, made of exactly the first
      occurrences: the kept chunks sit at increasing positions, each the first of its
      text, and every first occurrence is kept. */
  lemma FirstOccurrencesPositions(cs: seq<Chunk>)
    ensures exists pos: seq<int> ::
      && |pos| == |FirstOccurrences(cs)|
      && (forall k :: 0 <= k < |pos| ==> IsFirstOccurrence(cs, pos[k]) && FirstOccurrences(cs)[k] == cs[pos[k]])
      && (forall k, l :: 0 <= k < l < |pos| ==> pos[k] < pos[l])
      && (forall i :: IsFirstOccurrence(cs, i) ==> i in pos)
  {
    var pos := FirstPositions(cs);
    FirstPositionsSelect(cs);
    FirstPositionsExact(cs);
    assert forall k :: 0 <= k < |pos| ==> pos[k] in pos;
  }

  /** Every text of the input is represented after deduplication. */
  lemma {:induction false} FirstOccurrencesCover(cs: seq<Chunk>)
    ensures forall c :: c in cs ==> exists d :: d in FirstOccurrences(cs) && d.text == c.text
    decreases |cs|
  {
    if |cs| > 0 {
      var init := cs[..|cs| - 1];
      FirstOccurrencesCover(init);
      assert forall c :: c in cs ==> c in init || c == cs[|cs| - 1];
    }
  }

  /** Deduplication keeps the first chunk, and leaves nothing only when given nothing. */
  lemma {:induction false} FirstOccurrencesHead(cs: seq<Chunk>)
    ensures FirstOccurrences(cs) == [] <==> cs == []
    ensures cs != [] ==> FirstOccurrences(cs)[0] == cs[0]
    decreases |cs|
  {
    if |cs| > 1 {
      var init := cs[..|cs| - 1];
      FirstOccurrencesHead(init);
      assert init[0] == cs[0];
    } else if |cs| == 1 {
      assert cs[..0] == [];
    }
  }

  /** The citation: `"<name> - Page <n>"` when the page number is truthy (neither
      `None` nor 0), otherwise the document's name alone. */
  function Citation(c: Chunk): string {
    match c.pageNumber
    case Some(n) => if n != 0 then c.document.name + " - Page " + IntToStr(n) else c.document.name
    case None => c.document.name
  }

  /** A cited page can be read back: the citation starts with the document's name and
      `" - Page "`, and the rest parses as the page number. */
  lemma CitationNamesPage(c: Chunk)
    requires c.pageNumber.Some? && c.pageNumber.value != 0
    ensures var name := c.document.name; var r := Citation(c);
      && |r| > |name| + 8
      && r[..|name|] == name
      && r[|name|..|name| + 8] == " - Page "
      && ParseInt(r[|name| + 8..]) == c.pageNumber
  {
    var name := c.document.name;
    var num := IntToStr(c.pageNumber.value);
    IntToStrRoundTrip(c.pageNumber.value);
    var r := Citation(c);
    assert r == name + (" - Page " + num);
    assert r[|name|..] == " - Page " + num;
    assert |num| >= 1;
  }

  /** The rows the two ingestion paths store cite as `"<name> - Page 1"` (the
      view's) and `"<name>"` (the receiver's); a page number of 0 is not cited. */
  lemma CitationOfStoredRows(doc: Document, text: string, v: Vector, k: int)
    ensures Citation(Chunk(doc, text, v, Some(1), k)) == doc.name + " - Page 1"
    ensures Citation(Chunk(doc, text, v, None, k)) == DocumentStr(doc)
    ensures Citation(Chunk(doc, text, v, Some(0), k)) == DocumentStr(doc)
  {
    assert IntToStr(1) == "1";
  }

  /** What the question view answers. `Unanswered` is the successful reply with the
      "I don't know." sentinel; `Crashed` is an `IndexError` in the label filter. */
  datatype Reply =
    | Rejected(error: string)
    | Unanswered(answer: string, sources: seq<string>)
    | Answered(answer: string, sources: seq<string>)
    | Crashed

  /** The reply of `AskQuestionView.post` for a store holding `chunks`, a request
      field `question` and the labels the search returns. */
  function AnswerFor(chunks: seq<Chunk>, question: Option<string>, labels: seq<int>): Reply {
    if question.None? || question.value == "" then Rejected(NoQuestionError)
    else if |chunks| == 0 then Rejected(NoKnowledgeBaseError)
    else match SelectTop(chunks, labels)
      case None => Crashed
      case Some(top) =>
        var unique := FirstOccurrences(top);
        if |unique| == 0 then Unanswered(DontKnow, [])
        else Answered(unique[0].text, [Citation(unique[0])])
  }

  /** A question is refused exactly when it is missing or empty; a question made of
      whitespace is not refused. */
  lemma QuestionCheck(chunks: seq<Chunk>, question: Option<string>, labels: seq<int>)
    ensures AnswerFor(chunks, question, labels) == Rejected(NoQuestionError)
        <==> question.None? || question.value == ""
    ensures question == Some(" ") ==> AnswerFor(chunks, question, labels) != Rejected(NoQuestionError)
  {
    assert NoQuestionError != NoKnowledgeBaseError by {
      assert |NoQuestionError| != |NoKnowledgeBaseError|;
    }
  }

  /** An accepted question against an empty store gets the no-knowledge-base error. */
  lemma EmptyStoreRefused(question: string, labels: seq<int>)
    requires question != ""
    ensures AnswerFor([], Some(question), labels) == Rejected(NoKnowledgeBaseError)
  {
  }

  /** Once the labels are filtered, the answer is the first selected chunk, cited
      once, and the sentinel comes exactly when nothing was selected. */
  lemma AnswerIsFirstSelected(chunks: seq<Chunk>, question: string, labels: seq<int>, top: seq<Chunk>)
    requires question != "" && |chunks| > 0 && SelectTop(chunks, labels) == Some(top)
    ensures AnswerFor(chunks, Some(question), labels)
         == if top == [] then Unanswered(DontKnow, []) else Answered(top[0].text, [Citation(top[0])])
  {
    FirstOccurrencesHead(top);
  }

  /** Nothing is selected exactly when every label is at least `len(chunk_refs)`. */
  lemma SelectsNothingIffNoLabelKept(refs: seq<Chunk>, labels: seq<int>, top: seq<Chunk>)
    requires SelectTop(refs, labels) == Some(top)
    ensures top == [] <==> forall k :: 0 <= k < |labels| ==> labels[k] >= |refs|
  {
    SelectTopSpec(refs, labels);
    KeptLabelsSpec(labels, |refs|);
    var kept := KeptLabels(labels, |refs|);
    if kept == [] {
      forall k | 0 <= k < |labels| ensures labels[k] >= |refs| {
        assert labels[k] in labels && labels[k] !in kept;
      }
    } else {
      assert kept[0] in kept;
    }
  }

  /** With the labels the search produces (each at least -1) and a valid nearest
      label, the answer is the text of the nearest chunk. */
  lemma NearestLabelAnswers(chunks: seq<Chunk>, question: string, labels: seq<int>)
    requires question != "" && |chunks| > 0 && |labels| > 0
    requires 0 <= labels[0] < |chunks|
    requires forall k :: 0 <= k < |labels| ==> labels[k] >= -1
    ensures var best := chunks[labels[0]];
      AnswerFor(chunks, Some(question), labels) == Answered(best.text, [Citation(best)])
  {
    SelectTopSpec(chunks, labels);
    assert forall k :: 0 <= k < |labels| ==> labels[k] + |chunks| >= 0;
    var top := SelectTop(chunks, labels).value;
    var kept := KeptLabels(labels, |chunks|);
    assert kept == [labels[0]] + KeptLabels(labels[1..], |chunks|);
    assert top[0] == chunks[labels[0]];
    AnswerIsFirstSelected(chunks, question, labels, top);
  }

  /** A successful answer is the text of a stored chunk, non-empty and trimmed when
      the store is well formed, with that chunk's citation as its only source; the
      logged `", ".join(sources)` is that citation. */
  lemma AnswerComesFromStore(documents: seq<Document>, chunks: seq<Chunk>, question: Option<string>, labels: seq<int>)
    requires ChunksWellFormed(documents, chunks)
    ensures var r := AnswerFor(chunks, question, labels);
      r.Answered? ==>
        && r.answer != [] && Strip(r.answer) == r.answer
        && |r.sources| == 1 && Join(", ", r.sources) == r.sources[0]
        && exists c :: c in chunks && r.answer == c.text && r.sources == [Citation(c)]
  {
    var r := AnswerFor(chunks, question, labels);
    if r.Answered? {
      SelectTopSpec(chunks, labels);
      var top := SelectTop(chunks, labels).value;
      FirstOccurrencesHead(top);
      var kept := KeptLabels(labels, |chunks|);
      var i := ResolveLabel(kept[0], |chunks|);
      var c := chunks[i];
      assert top[0] == c && c in chunks;
      assert TrimmedText(c);
    }
  }

  /** `AskQuestionView.post`. The search result for the question's embedding is the
      input `labels`. Only a successful answer is logged; the sentinel, the errors
      and the crash leave the log unchanged. */
  method AskQuestion(kb: KnowledgeBase, question: Option<string>, labels: seq<int>, user: Option<string>)
    returns (reply: Reply)
    requires kb.Valid()
    modifies kb
    ensures kb.Valid()
    ensures kb.documents == old(kb.documents) && kb.chunks == old(kb.chunks)
    ensures reply == AnswerFor(old(kb.chunks), question, labels)
    ensures reply.Answered? ==>
      question.Some? && kb.logs == old(kb.logs) + [QALog(question.value, reply.answer, user, Some(Join(", ", reply.sources)))]
    ensures !reply.Answered? ==> kb.logs == old(kb.logs)
  {
    if question.None? || question.value == "" {
      return Rejected(NoQuestionError);
    }
    var index, chunkRefs := BuildFaissIndexFromDb(kb);
    if index.None? {
      return Rejected(NoKnowledgeBaseError);
    }
    var topChunks := SelectTop(chunkRefs, labels);
    if topChunks.None? {
      return Crashed;
    }
    var uniqueChunks := DeduplicateByText(topChunks.value);
    if |uniqueChunks| == 0 {
      return Unanswered(DontKnow, []);
    }
    var bestChunk := uniqueChunks[0];
    var answer := bestChunk.text;
    var source := Citation(bestChunk);
    var sources := [source];
    kb.logs := kb.logs + [QALog(question.value, answer, user, Some(Join(", ", sources)))];
    reply := Answered(answer, sources);
  }
}
