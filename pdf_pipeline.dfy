/** The bookkeeping of `ArabicTextPreprocessing.process_pdf_for_rag`: the page filter that
    builds the cleaned documents with their metadata, the call to the text splitter, and
    the loop that numbers the chunks. The PDF loader is replaced by its result, the
    sequence of page texts; the splitter is a parameter. */
module PdfPipeline {
  import opened ArabicText

  /** A value of a document's metadata dictionary. */
  datatype MetaValue = IntValue(n: int) | StrValue(s: string)

  type Metadata = map<string, MetaValue>

  /** A `Document`: its text and its metadata dictionary. */
  datatype Document = Document(pageContent: string, metadata: Metadata)

  /** A page whose cleaned text, stripped, is shorter than this is dropped. */
  const MinPageLength: nat := 50

  /** Separators handed to the splitter, in order of preference. */
  const Separators: seq<string> := ["\n\n", "\n", "؟", "!", "،", " "]

  /** The defaults of `process_pdf_for_rag`'s parameters. */
  const DefaultChunkSize: int := 1000
  const DefaultChunkOverlap: int := 200

  /** The settings `RecursiveCharacterTextSplitter` is built with. */
  datatype SplitterConfig = SplitterConfig(chunkSize: int, chunkOverlap: int, separators: seq<string>)

  /** `split_documents` of a splitter built with the given settings. */
  type Splitter = (SplitterConfig, seq<Document>) -> seq<Document>

  // ---------------------------------------------------------------------------
  // The cleaning loop
  // ---------------------------------------------------------------------------

  /** The filter of the cleaning loop: a page is kept unless
      `len(cleaned_content.strip()) < 50`. */
  predicate KeepsPage(cleaned: string)
  {
    |Strip(cleaned)| >= MinPageLength
  }

  /** On text without outer whitespace the filter keeps exactly the texts of at least 50
      characters. */
  lemma KeepsPageWithoutOuterSpaces(cleaned: string)
    requires NoOuterSpaces(cleaned)
    ensures KeepsPage(cleaned) <==> |cleaned| >= MinPageLength
  {
    if cleaned != [] {
      assert SpaceRunEnd(cleaned, 0) == 0;
    }
  }

  /** The document the cleaning loop builds for a kept page. */
  function PageDocument(content: string, pageNumber: int, source: string): (d: Document)
    ensures d.pageContent == content && PageOf(d) == pageNumber
    ensures "char_count" in d.metadata && d.metadata["char_count"] == IntValue(|d.pageContent|)
  {
    Document(content, map["page" := IntValue(pageNumber), "source" := StrValue(source),
                          "char_count" := IntValue(|content|)])
  }

  /** The cleaned text of every page, in page order. */
  function CleanedTexts(pages: seq<string>, isDigit: char -> bool): (cs: seq<string>)
    requires DigitsAreNotSpaces(isDigit)
    ensures |cs| == |pages|
  {
    seq(|pages|, j requires 0 <= j < |pages| => BasicClean(pages[j], isDigit))
  }

  /** Each cleaned text is `basic_clean` of its page: single-spaced, without diacritics,
      and made of the words of the page less a leading number word. */
  lemma CleanedTextsAreClean(pages: seq<string>, isDigit: char -> bool)
    requires DigitsAreNotSpaces(isDigit)
    ensures forall j :: 0 <= j < |pages| ==>
      DiacriticFree(CleanedTexts(pages, isDigit)[j]) && SingleSpaced(CleanedTexts(pages, isDigit)[j]) &&
      Words(CleanedTexts(pages, isDigit)[j]) == DropNumberWord(Words(RemoveDiacritics(pages[j])), isDigit)
  {
    forall j | 0 <= j < |pages|
      ensures Words(BasicClean(pages[j], isDigit)) == DropNumberWord(Words(RemoveDiacritics(pages[j])), isDigit)
    {
      BasicCleanWords(pages[j], isDigit);
    }
  }

  /** The list `cleaned_docs` the cleaning loop builds from the cleaned page texts: one
      append, in page order, per text that passes the filter `keep`. */
  function CleanedDocuments(cleaned: seq<string>, source: string, keep: string -> bool): seq<Document>
  {
    if cleaned == [] then []
    else
      var n := |cleaned| - 1;
      CleanedDocuments(cleaned[..n], source, keep) +
        (if keep(cleaned[n]) then [PageDocument(cleaned[n], n + 1, source)] else [])
  }

  /** There are no more cleaned documents than pages, and each passes the filter. */
  lemma {:induction false} CleanedDocumentsFiltered(cleaned: seq<string>, source: string, keep: string -> bool)
    ensures |CleanedDocuments(cleaned, source, keep)| <= |cleaned|
    ensures forall k :: 0 <= k < |CleanedDocuments(cleaned, source, keep)| ==>
      keep(CleanedDocuments(cleaned, source, keep)[k].pageContent)
  {
    if cleaned != [] {
      var n := |cleaned| - 1;
      CleanedDocumentsFiltered(cleaned[..n], source, keep);
      var docs0 := CleanedDocuments(cleaned[..n], source, keep);
      var docs := CleanedDocuments(cleaned, source, keep);
      forall k | 0 <= k < |docs|
        ensures keep(docs[k].pageContent)
      {
        if k < |docs0| {
          assert docs[k] == docs0[k];
        }
      }
    }
  }

  /** One more page extends the cleaned documents by that page's document, if it is kept. */
  lemma CleanedDocumentsStep(cleaned: seq<string>, i: nat, source: string, keep: string -> bool)
    requires i < |cleaned|
    ensures CleanedDocuments(cleaned[..i + 1], source, keep) ==
      CleanedDocuments(cleaned[..i], source, keep) +
        (if keep(cleaned[i]) then [PageDocument(cleaned[i], i + 1, source)] else [])
  {
    assert cleaned[..i + 1][..i] == cleaned[..i];
  }

  /** The `page` number recorded in `doc`'s metadata (0 when there is none). */
  function PageOf(doc: Document): int
  {
    if "page" in doc.metadata && doc.metadata["page"].IntValue? then doc.metadata["page"].n else 0
  }

  /** The page numbers recorded in `docs`. */
  ghost function PageNumbers(docs: seq<Document>): set<int>
  {
    set k | 0 <= k < |docs| :: PageOf(docs[k])
  }

  /** Appending a document adds its page number. */
  lemma PageNumbersAppend(docs: seq<Document>, doc: Document)
    ensures PageNumbers(docs + [doc]) == PageNumbers(docs) + {PageOf(doc)}
  {
    var all := docs + [doc];
    forall p | p in PageNumbers(all)
      ensures p in PageNumbers(docs) + {PageOf(doc)}
    {
      var k :| 0 <= k < |all| && PageOf(all[k]) == p;
      if k < |docs| {
        assert all[k] == docs[k];
      }
    }
    forall p | p in PageNumbers(docs)
      ensures p in PageNumbers(all)
    {
      var k :| 0 <= k < |docs| && PageOf(docs[k]) == p;
      assert all[k] == docs[k];
    }
    assert all[|docs|] == doc;
  }

  /** `doc` is what the cleaning loop records for a kept page: its `page` is the page's
      1-based number, its content that page's cleaned text, at least 50 characters long,
      its `source` the path and its `char_count` the length of its content; the metadata
      has no other key. */
  ghost predicate IsKeptPageDocument(doc: Document, cleaned: seq<string>, source: string)
  {
    doc.metadata.Keys == {"page", "source", "char_count"} &&
    doc.metadata["page"] == IntValue(PageOf(doc)) &&
    1 <= PageOf(doc) <= |cleaned| &&
    doc.pageContent == cleaned[PageOf(doc) - 1] &&
    |doc.pageContent| >= MinPageLength &&
    doc.metadata["source"] == StrValue(source) &&
    doc.metadata["char_count"] == IntValue(|doc.pageContent|)
  }

  /** Every cleaned document is a page the filter keeps, recorded with its metadata; when
      the filter keeps only texts of at least 50 characters, so does the content. */
  lemma {:induction false} CleanedDocumentsAreKeptPages(cleaned: seq<string>, source: string, keep: string -> bool)
    requires forall j :: 0 <= j < |cleaned| && keep(cleaned[j]) ==> |cleaned[j]| >= MinPageLength
    ensures forall k :: 0 <= k < |CleanedDocuments(cleaned, source, keep)| ==>
      IsKeptPageDocument(CleanedDocuments(cleaned, source, keep)[k], cleaned, source) && keep(CleanedDocuments(cleaned, source, keep)[k].pageContent)
  {
    if cleaned != [] {
      var n := |cleaned| - 1;
      var init := cleaned[..n];
      assert forall j :: 0 <= j < n ==> init[j] == cleaned[j];
      CleanedDocumentsAreKeptPages(init, source, keep);
      var docs0 := CleanedDocuments(init, source, keep);
      var docs := CleanedDocuments(cleaned, source, keep);
      assert docs == docs0 + (if keep(cleaned[n]) then [PageDocument(cleaned[n], n + 1, source)] else []);
      forall k | 0 <= k < |docs|
        ensures IsKeptPageDocument(docs[k], cleaned, source) && keep(docs[k].pageContent)
      {
        if k < |docs0| {
          assert docs[k] == docs0[k];
          assert IsKeptPageDocument(docs0[k], init, source);
          assert init[PageOf(docs0[k]) - 1] == cleaned[PageOf(docs0[k]) - 1];
        } else {
          assert docs[k] == PageDocument(cleaned[n], n + 1, source);
        }
      }
    }
  }

  /** The cleaned documents carry page numbers between 1 and the number of pages, in
      strictly increasing order: kept pages keep their relative order. */
  lemma {:induction false} CleanedDocumentsInPageOrder(cleaned: seq<string>, source: string, keep: string -> bool)
    ensures forall k :: 0 <= k < |CleanedDocuments(cleaned, source, keep)| ==> 1 <= PageOf(CleanedDocuments(cleaned, source, keep)[k]) <= |cleaned|
    ensures forall k, l :: 0 <= k < l < |CleanedDocuments(cleaned, source, keep)| ==> PageOf(CleanedDocuments(cleaned, source, keep)[k]) < PageOf(CleanedDocuments(cleaned, source, keep)[l])
  {
    if cleaned != [] {
      var n := |cleaned| - 1;
      CleanedDocumentsInPageOrder(cleaned[..n], source, keep);
      var docs0 := CleanedDocuments(cleaned[..n], source, keep);
      var docs := CleanedDocuments(cleaned, source, keep);
      assert docs == docs0 + (if keep(cleaned[n]) then [PageDocument(cleaned[n], n + 1, source)] else []);
      forall k | 0 <= k < |docs|
        ensures 1 <= PageOf(docs[k]) <= n + 1
        ensures k < |docs0| ==> PageOf(docs[k]) <= n
      {
        if k < |docs0| {
          assert docs[k] == docs0[k];
        } else {
          assert docs[k] == PageDocument(cleaned[n], n + 1, source);
        }
      }
      forall k, l | 0 <= k < l < |docs|
        ensures PageOf(docs[k]) < PageOf(docs[l])
      {
        assert docs[k] == docs0[k];
        if l < |docs0| {
          assert docs[l] == docs0[l];
        }
      }
    }
  }

  /** Page `j` (0-based) appears among the cleaned documents, as page number `j + 1`,
      exactly when the filter keeps its text. */
  lemma {:induction false} CleanedDocumentsPageNumbers(cleaned: seq<string>, source: string, keep: string -> bool)
    ensures forall j :: 0 <= j < |cleaned| ==> (j + 1 in PageNumbers(CleanedDocuments(cleaned, source, keep)) <==> keep(cleaned[j]))
  {
    if cleaned != [] {
      var n := |cleaned| - 1;
      var init := cleaned[..n];
      CleanedDocumentsPageNumbers(init, source, keep);
      CleanedDocumentsInPageOrder(init, source, keep);
      var docs0 := CleanedDocuments(init, source, keep);
      var docs := CleanedDocuments(cleaned, source, keep);
      assert n + 1 !in PageNumbers(docs0);
      if keep(cleaned[n]) {
        var doc := PageDocument(cleaned[n], n + 1, source);
        assert PageOf(doc) == n + 1;
        PageNumbersAppend(docs0, doc);
        assert docs == docs0 + [doc];
      } else {
        assert docs == docs0;
      }
      forall j | 0 <= j < n
        ensures j + 1 in PageNumbers(docs) <==> keep(cleaned[j])
      {
        assert init[j] == cleaned[j];
      }
    }
  }

  /** The properties of the cleaned documents that `CleanPages` promises: the filter on
      the stripped text keeps exactly the cleaned texts of at least 50 characters. */
  lemma CleanedPagesFacts(pages: seq<string>, source: string, isDigit: char -> bool)
    requires DigitsAreNotSpaces(isDigit)
    ensures var cleaned := CleanedTexts(pages, isDigit);
      forall k :: 0 <= k < |CleanedDocuments(cleaned, source, KeepsPage)| ==>
        IsKeptPageDocument(CleanedDocuments(cleaned, source, KeepsPage)[k], cleaned, source)
    ensures var cleaned := CleanedTexts(pages, isDigit);
      forall k, l :: 0 <= k < l < |CleanedDocuments(cleaned, source, KeepsPage)| ==>
        PageOf(CleanedDocuments(cleaned, source, KeepsPage)[k]) < PageOf(CleanedDocuments(cleaned, source, KeepsPage)[l])
    ensures var cleaned := CleanedTexts(pages, isDigit);
      forall j :: 0 <= j < |pages| ==>
        (j + 1 in PageNumbers(CleanedDocuments(cleaned, source, KeepsPage)) <==> |cleaned[j]| >= MinPageLength)
  {
    var cleaned := CleanedTexts(pages, isDigit);
    forall j | 0 <= j < |pages|
      ensures KeepsPage(cleaned[j]) <==> |cleaned[j]| >= MinPageLength
    {
      StripOfCleanIsIdentity(pages[j], isDigit);
    }
    CleanedDocumentsAreKeptPages(cleaned, source, KeepsPage);
    CleanedDocumentsInPageOrder(cleaned, source, KeepsPage);
    CleanedDocumentsPageNumbers(cleaned, source, KeepsPage);
  }

  /** The cleaning loop of `process_pdf_for_rag`. Every document it builds is a kept page
      with its metadata; page `j` (0-based) is kept, as page number `j + 1`, exactly when
      its cleaned text has at least 50 characters; kept pages stay in page order. */
  method CleanPages(pages: seq<string>, source: string, isDigit: char -> bool) returns (cleanedDocs: seq<Document>)
    requires DigitsAreNotSpaces(isDigit)
    ensures cleanedDocs == CleanedDocuments(CleanedTexts(pages, isDigit), source, KeepsPage)
    ensures forall k :: 0 <= k < |cleanedDocs| ==>
      IsKeptPageDocument(cleanedDocs[k], CleanedTexts(pages, isDigit), source)
    ensures forall k, l :: 0 <= k < l < |cleanedDocs| ==> PageOf(cleanedDocs[k]) < PageOf(cleanedDocs[l])
    ensures forall j :: 0 <= j < |pages| ==>
      (j + 1 in PageNumbers(cleanedDocs) <==> |CleanedTexts(pages, isDigit)[j]| >= MinPageLength)
  {
    ghost var cleaned := CleanedTexts(pages, isDigit);
    cleanedDocs := [];
    for i := 0 to |pages|
      invariant cleanedDocs == CleanedDocuments(cleaned[..i], source, KeepsPage)
    {
      var cleanedContent := BasicClean(pages[i], isDigit);
      CleanedDocumentsStep(cleaned, i, source, KeepsPage);
      if |Strip(cleanedContent)| < MinPageLength {
        continue;
      }
      var cleanedDoc := PageDocument(cleanedContent, i + 1, source);
      cleanedDocs := cleanedDocs + [cleanedDoc];
    }
    assert cleaned[..|pages|] == cleaned;
    CleanedPagesFacts(pages, source, isDigit);
  }

  /** Text as `basic_clean` leaves it: no diacritics, and its only whitespace is single
      plain spaces. */
  predicate IsCleanText(s: string)
  {
    DiacriticFree(s) && OnlyPlainSpaces(s) && NoAdjacentSpaces(s)
  }

  /** The content of every cleaned document is one of the cleaned texts. */
  lemma {:induction false} CleanedDocumentsContents(cleaned: seq<string>, source: string, keep: string -> bool)
    ensures forall d :: d in CleanedDocuments(cleaned, source, keep) ==> d.pageContent in cleaned
  {
    if cleaned != [] {
      var n := |cleaned| - 1;
      CleanedDocumentsContents(cleaned[..n], source, keep);
      assert cleaned == cleaned[..n] + [cleaned[n]];
    }
  }

  /** Every cleaned document carries cleaned text. */
  lemma CleanedDocumentsAreClean(pages: seq<string>, source: string, isDigit: char -> bool)
    requires DigitsAreNotSpaces(isDigit)
    ensures forall d :: d in CleanedDocuments(CleanedTexts(pages, isDigit), source, KeepsPage) ==>
      IsCleanText(d.pageContent)
  {
    CleanedTextsAreClean(pages, isDigit);
    CleanedDocumentsContents(CleanedTexts(pages, isDigit), source, KeepsPage);
  }

  // ---------------------------------------------------------------------------
  // The chunk-numbering loop
  // ---------------------------------------------------------------------------

  /** `after` is `before` with `chunk_id` set to `id` and `chunk_size` set to the length
      of its content; content and every other metadata entry unchanged. */
  ghost predicate NumberedChunk(before: Document, after: Document, id: int)
  {
    after.pageContent == before.pageContent &&
    after.metadata.Keys == before.metadata.Keys + {"chunk_id", "chunk_size"} &&
    after.metadata["chunk_id"] == IntValue(id) &&
    after.metadata["chunk_size"] == IntValue(|after.pageContent|) &&
    forall key :: key in before.metadata && key != "chunk_id" && key != "chunk_size" ==>
      after.metadata[key] == before.metadata[key]
  }

  /** The chunk-numbering loop of `process_pdf_for_rag`: every chunk, in list order, gets
      `chunk_id` 0, 1, ... and its `chunk_size`. */
  method NumberChunks(chunks: seq<Document>) returns (numbered: seq<Document>)
    ensures |numbered| == |chunks|
    ensures forall i :: 0 <= i < |chunks| ==> NumberedChunk(chunks[i], numbered[i], i)
  {
    numbered := chunks;
    for i := 0 to |numbered|
      invariant |numbered| == |chunks|
      invariant forall j :: 0 <= j < i ==> NumberedChunk(chunks[j], numbered[j], j)
      invariant forall j :: i <= j < |chunks| ==> numbered[j] == chunks[j]
    {
      var chunk := numbered[i];
      numbered := numbered[i := chunk.(metadata := chunk.metadata["chunk_id" := IntValue(i)])];
      chunk := numbered[i];
      numbered := numbered[i := chunk.(metadata := chunk.metadata["chunk_size" := IntValue(|chunk.pageContent|)])];
    }
  }

  // ---------------------------------------------------------------------------
  // process_pdf_for_rag
  // ---------------------------------------------------------------------------

  /** `process_pdf_for_rag(chunk_size, chunk_overlap)` on the loaded pages: the cleaned
      documents go to the splitter built with these settings and the separators, and its
      chunks come back numbered, in the splitter's order. */
  method ProcessPdfForRag(pages: seq<string>, pdfPath: string, isDigit: char -> bool, split: Splitter,
                          chunkSize: int := DefaultChunkSize, chunkOverlap: int := DefaultChunkOverlap)
    returns (chunks: seq<Document>)
    requires DigitsAreNotSpaces(isDigit)
    ensures var raw := split(SplitterConfig(chunkSize, chunkOverlap, Separators),
                             CleanedDocuments(CleanedTexts(pages, isDigit), pdfPath, KeepsPage));
      |chunks| == |raw| && forall i :: 0 <= i < |raw| ==> NumberedChunk(raw[i], chunks[i], i)
  {
    var cleanedDocs := CleanPages(pages, pdfPath, isDigit);
    var textSplitter := SplitterConfig(chunkSize, chunkOverlap, Separators);
    chunks := split(textSplitter, cleanedDocs);
    chunks := NumberChunks(chunks);
  }

  /** `chunk`'s content is a contiguous piece of `doc`'s content. */
  ghost predicate IsPieceOf(chunk: Document, doc: Document)
  {
    exists lo: nat, hi: nat :: lo <= hi <= |doc.pageContent| && chunk.pageContent == doc.pageContent[lo..hi]
  }

  /** Every chunk is a piece of one of the documents it was split from. */
  ghost predicate ChunksArePieces(chunks: seq<Document>, docs: seq<Document>)
  {
    forall c :: c in chunks ==> exists d :: d in docs && IsPieceOf(c, d)
  }

  /** Pieces of cleaned documents carry cleaned text. */
  lemma PiecesAreClean(chunks: seq<Document>, docs: seq<Document>)
    requires ChunksArePieces(chunks, docs)
    requires forall d :: d in docs ==> IsCleanText(d.pageContent)
    ensures forall c :: c in chunks ==> IsCleanText(c.pageContent)
  {
    forall c | c in chunks
      ensures IsCleanText(c.pageContent)
    {
      var d :| d in docs && IsPieceOf(c, d);
      var lo: nat, hi: nat :| lo <= hi <= |d.pageContent| && c.pageContent == d.pageContent[lo..hi];
      SliceKeepsSpacing(d.pageContent, lo, hi);
    }
  }

  /** When the splitter cuts documents into pieces, every chunk `process_pdf_for_rag`
      returns carries cleaned text. */
  lemma ChunksAreClean(pages: seq<string>, pdfPath: string, isDigit: char -> bool, split: Splitter,
                       chunkSize: int, chunkOverlap: int, chunks: seq<Document>)
    requires DigitsAreNotSpaces(isDigit)
    requires var docs := CleanedDocuments(CleanedTexts(pages, isDigit), pdfPath, KeepsPage);
      ChunksArePieces(split(SplitterConfig(chunkSize, chunkOverlap, Separators), docs), docs)
    requires var raw := split(SplitterConfig(chunkSize, chunkOverlap, Separators),
                              CleanedDocuments(CleanedTexts(pages, isDigit), pdfPath, KeepsPage));
      |chunks| == |raw| && forall i :: 0 <= i < |raw| ==> NumberedChunk(raw[i], chunks[i], i)
    ensures forall i :: 0 <= i < |chunks| ==> IsCleanText(chunks[i].pageContent)
  {
    var docs := CleanedDocuments(CleanedTexts(pages, isDigit), pdfPath, KeepsPage);
    var raw := split(SplitterConfig(chunkSize, chunkOverlap, Separators), docs);
    CleanedDocumentsAreClean(pages, pdfPath, isDigit);
    PiecesAreClean(raw, docs);
    forall i | 0 <= i < |chunks|
      ensures IsCleanText(chunks[i].pageContent)
    {
      assert raw[i] in raw;
    }
  }
}
