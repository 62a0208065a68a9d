/** The module-level script of `text_preprocessing.py`: it runs `process_pdf_for_rag` on
    `Arabic.pdf` with chunks of 1500 characters overlapping by 250, then asks a chat model,
    for every chunk, for a one-line description and a two- or three-word name, and collects
    one episode record per chunk. Writing the records to `epsiodes.json` is not modelled. */
module Episodes {
  import opened ArabicText
  import opened PdfPipeline

  /** The PDF the script processes. */
  const PdfPath: string := "Arabic.pdf"

  /** The settings the script passes to `process_pdf_for_rag`. */
  const ScriptChunkSize: int := 1500
  const ScriptChunkOverlap: int := 250

  /** The instruction asking for a title of two or three words for the paragraph that follows. */
  const NamePrompt: string :=
    "اكتب عنوان مكون من كلمتين او ثلاث كلمات فقط ردك يجب أن يكون إجابة وحيدة صريحة فقط بدون أي مهاترات للفقرة الأتية:"

  /** The instruction asking for a one-line description of the paragraph that follows. */
  const DescriptionPrompt: string :=
    "اكتب وصف من سطر واحد فقط بأقل عدد كلمات ممكنة ردك يجب أن يكون إجابة وحيدة صريحة فقط بدون أي مهاترات للفقرة الأتية:"

  /** The `type` every episode records. */
  const EpisodeType: string := "text"

  /** An episode: a JSON object whose values are all strings. */
  type Episode = map<string, string>

  /** The chat model: `llm(n, prompt)` is the content of its reply to the `n`-th request of
      the script (counting from 0), whose prompt is `prompt`. The request number lets the
      same prompt get different replies, as it may from a sampled model. */
  type ChatModel = (nat, string) -> string

  /** The prompt sent for a chunk: the instruction, a line break, then the chunk's text. */
  function Request(instruction: string, content: string): (r: string)
    ensures |r| == |instruction| + 1 + |content|
    ensures r[..|instruction|] == instruction && r[|instruction|] == '\n'
    ensures r[|instruction| + 1..] == content
  {
    instruction + "\n" + content
  }

  /** `e` is the record the script builds for a chunk with text `content`, given the model's
      `description` and `name` replies: exactly the keys `content`, `type`, `description` and
      `name`, with `type` equal to "text". */
  ghost predicate IsEpisodeOf(e: Episode, content: string, description: string, name: string)
  {
    e.Keys == {"content", "type", "description", "name"} &&
    e["content"] == content &&
    e["type"] == EpisodeType &&
    e["description"] == description &&
    e["name"] == name
  }

  /** The episode loop: one record per chunk, in chunk order. For chunk `i` the script
      first asks for the description (request `2 * i`), then for the name (request
      `2 * i + 1`). */
  method BuildEpisodes(chunks: seq<Document>, llm: ChatModel) returns (episodes: seq<Episode>)
    ensures |episodes| == |chunks|
    ensures forall i :: 0 <= i < |chunks| ==>
      IsEpisodeOf(episodes[i], chunks[i].pageContent,
                  llm(2 * i, Request(DescriptionPrompt, chunks[i].pageContent)),
                  llm(2 * i + 1, Request(NamePrompt, chunks[i].pageContent)))
  {
    episodes := [];
    for i := 0 to |chunks|
      invariant |episodes| == i
      invariant forall j :: 0 <= j < i ==>
        IsEpisodeOf(episodes[j], chunks[j].pageContent,
                    llm(2 * j, Request(DescriptionPrompt, chunks[j].pageContent)),
                    llm(2 * j + 1, Request(NamePrompt, chunks[j].pageContent)))
    {
      var content := chunks[i].pageContent;
      var description := llm(2 * i, Request(DescriptionPrompt, content));
      var name := llm(2 * i + 1, Request(NamePrompt, content));
      episodes := episodes + [map["content" := content, "type" := EpisodeType,
                                  "description" := description, "name" := name]];
    }
  }

  /** The chunks `process_pdf_for_rag(chunk_size=1500, chunk_overlap=250)` hands the
      splitter's output on from, before numbering. */
  function ScriptChunks(pages: seq<string>, isDigit: char -> bool, split: Splitter): seq<Document>
    requires DigitsAreNotSpaces(isDigit)
  {
    split(SplitterConfig(ScriptChunkSize, ScriptChunkOverlap, Separators),
          CleanedDocuments(CleanedTexts(pages, isDigit), PdfPath, KeepsPage))
  }

  /** The whole script on the pages of `Arabic.pdf`: one episode per chunk, in the
      splitter's order, whose content is that chunk's text and whose description and name
      are the model's replies about it; when the splitter cuts the cleaned documents into
      pieces, every episode's content is cleaned text. */
  method RunScript(pages: seq<string>, isDigit: char -> bool, split: Splitter, llm: ChatModel)
    returns (episodes: seq<Episode>)
    requires DigitsAreNotSpaces(isDigit)
    ensures var chunks := ScriptChunks(pages, isDigit, split);
      |episodes| == |chunks| &&
      forall i :: 0 <= i < |chunks| ==>
        IsEpisodeOf(episodes[i], chunks[i].pageContent,
                    llm(2 * i, Request(DescriptionPrompt, chunks[i].pageContent)),
                    llm(2 * i + 1, Request(NamePrompt, chunks[i].pageContent)))
    ensures ChunksArePieces(ScriptChunks(pages, isDigit, split),
                            CleanedDocuments(CleanedTexts(pages, isDigit), PdfPath, KeepsPage)) ==>
      forall i :: 0 <= i < |episodes| ==> IsCleanText(episodes[i]["content"])
  {
    var chunkedDocuments := ProcessPdfForRag(pages, PdfPath, isDigit, split, ScriptChunkSize, ScriptChunkOverlap);
    episodes := BuildEpisodes(chunkedDocuments, llm);
    ghost var chunks := ScriptChunks(pages, isDigit, split);
    assert forall i :: 0 <= i < |chunks| ==> chunkedDocuments[i].pageContent == chunks[i].pageContent;
    if ChunksArePieces(chunks, CleanedDocuments(CleanedTexts(pages, isDigit), PdfPath, KeepsPage)) {
      ChunksAreClean(pages, PdfPath, isDigit, split, ScriptChunkSize, ScriptChunkOverlap, chunkedDocuments);
    }
  }
}
