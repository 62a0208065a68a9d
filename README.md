# Arabic PDF preprocessing for the knowledge graph

This project is a Dafny model of `text_preprocessing.py`. That script turns an Arabic PDF
into the episode records that are later ingested into a knowledge graph. It:

- cleans the text of every page with `ArabicTextPreprocessing.basic_clean`;
- drops pages whose cleaned text is shorter than 50 characters;
- records each kept page with its page number, source path and character count;
- hands the kept pages to a text splitter;
- numbers the resulting chunks;
- asks a chat model for a description and a name for every chunk, giving one
  `{content, type, description, name}` record per chunk.

Three modules, one file each:

- `ArabicText` (`arabic_text.dfy`) covers `basic_clean`, written as pure functions. It has
  one function per stage, composed in `BasicClean`:
  - `RemoveDiacritics` deletes the diacritic class;
  - `CollapseWhitespace` turns each `\s+` run into one space;
  - `Strip` strips the ends;
  - `RemoveLineNumbers` applies `^\d+\s+` in multi-line mode.
- `PdfPipeline` (`pdf_pipeline.dfy`) covers `process_pdf_for_rag`:
  - the page-filter loop `CleanPages` is a method over sequences, proved against the
    function `CleanedDocuments`;
  - the chunk-numbering loop is `NumberChunks`;
  - the whole operation is `ProcessPdfForRag`.
- `Episodes` (`episodes.dfy`) covers the module-level script:
  - the episode loop is `BuildEpisodes`;
  - the whole run on `Arabic.pdf` with chunk size 1500 and overlap 250 is `RunScript`.

Python's `\s` and `str.strip()` use the same whitespace set. `IsSpace` models it
concretely, as the characters CPython treats as whitespace. The digit class `\d` stays
abstract: it is a parameter `isDigit`, and the only thing required of it is that no digit
is whitespace (`DigitsAreNotSpaces`).

The PDF loader is replaced by its result, the sequence of page texts. The text splitter is
a function parameter (`Splitter`). The chat model is a function parameter too
(`ChatModel`): it takes the number of the request and its prompt. Numbering the requests
lets two identical prompts get different replies, so the model need not be deterministic.

## Model

| member | source | states |
|---|---|---|
| ArabicText.WhitespaceClass | text_preprocessing.py:22-23 | `IsSpace`, the class of `\s` and of `str.strip()`, takes in the ASCII whitespace, U+00A0 and U+3000, and not U+200B |
| ArabicText.DiacriticClass | text_preprocessing.py:11 | `IsDiacritic`, the class of `diacritics_pattern`, contains the tatweel U+0640 and the bullet U+F0B7, and no whitespace character, so deleting it never removes whitespace |
| ArabicText.RemoveDiacritics | text_preprocessing.py:21 | the result contains no character of the diacritic class (U+0610–U+061A, U+064B–U+065F, U+0670, U+06D6–U+06ED, U+0640, U+F0B7) and is a subsequence of the input |
| ArabicText.RemoveDiacriticsKeepsOthers | text_preprocessing.py:21 | every character outside the class occurs in the result exactly as often as in the input |
| ArabicText.RemoveDiacriticsIdentity | text_preprocessing.py:21 | text without diacritics is left unchanged |
| ArabicText.CollapseWhitespace | text_preprocessing.py:22 | the only whitespace in the result is ' '; no two spaces are adjacent; the non-whitespace characters are exactly the input's, in order; the result embeds in the input; it is empty iff the input is; it starts with whitespace iff the input does |
| ArabicText.CollapseWhitespaceWords | text_preprocessing.py:22 | collapsing keeps the words (`str.split()`, the maximal non-whitespace runs) of its input exactly: every inner run survives as one ' ', so no two words merge |
| ArabicText.CollapseWhitespaceLast | text_preprocessing.py:22 | the result ends with whitespace iff the input does, so a trailing run also survives as one ' ' |
| ArabicText.CollapseWhitespaceIdentity | text_preprocessing.py:22 | text already collapsed is left unchanged |
| ArabicText.Strip | text_preprocessing.py:23 | the result is the slice of the input that starts after the leading whitespace run; only whitespace follows it; it neither begins nor ends with whitespace |
| ArabicText.StripWords | text_preprocessing.py:23 | stripping keeps the words exactly |
| ArabicText.WordsOfTrimmed | text_preprocessing.py:23 | cutting only whitespace off both ends of a text keeps its words |
| ArabicText.SliceKeepsSpacing | text_preprocessing.py:22-23 | any slice of collapsed text is still collapsed |
| ArabicText.NumberPrefixShape | text_preprocessing.py:24 | since digits are not whitespace, every match of `\d+\s+` at the front has the whole leading digit run as its digits and ends inside the whitespace run that follows |
| ArabicText.NumberPrefixLength | text_preprocessing.py:24 | the length of the greedy match of `\d+\s+` at the front: it is a match, no match is longer, and no whitespace follows it; 0 when there is no match |
| ArabicText.RemoveLineNumbers | text_preprocessing.py:24 | `re.sub` of `^\d+\s+` in multi-line mode, where `^` matches at the start and after each newline; the result embeds in the input |
| ArabicText.RemoveLineNumbersMidLine | text_preprocessing.py:24 | text with no newline, away from a line start, has no match and is unchanged |
| ArabicText.RemoveLineNumbersSingleLine | text_preprocessing.py:24 | on text with no newline, the multi-line substitution removes exactly the one longest prefix match at position 0 |
| ArabicText.PlainSpacesHaveNoNewline | text_preprocessing.py:22-24 | after whitespace collapsing no newline is left, so `^` can match only at the start |
| ArabicText.StrippedText | text_preprocessing.py:21-23 | after the first three stages the text has no diacritics, only single plain spaces and no outer whitespace, and it embeds in the diacritic-free input |
| ArabicText.StrippedTextWords | text_preprocessing.py:21-23 | the text after the first three stages has exactly the words of the diacritic-free input |
| ArabicText.NumberPrefixIsFirstWord | text_preprocessing.py:24 | on single-spaced text, a `\d+\s+` match at the front is the first word, all digits, plus the space after it; another word follows, and removing the match leaves the remaining words |
| ArabicText.NumberWordIsNumberPrefix | text_preprocessing.py:24 | single-spaced text that starts with an all-digit word followed by another word has a `\d+\s+` match at the front |
| ArabicText.NumberPrefixWords | text_preprocessing.py:24 | on single-spaced text the last stage drops exactly the first word when it is all digits and not the only word, and keeps every other word |
| ArabicText.SingleSpacedSplit | text_preprocessing.py:22-23 | single-spaced text containing a space is its first word, one ' ', and single-spaced text holding the remaining words |
| ArabicText.SingleSpacedIsUnwords | text_preprocessing.py:22-23 | single-spaced text equals its words joined by single spaces, so its words determine it |
| ArabicText.RemoveLineNumbersOfStripped | text_preprocessing.py:22-24 | on stripped text the last stage removes just the longest number prefix and keeps every shape property |
| ArabicText.BasicClean | text_preprocessing.py:19-26 | the output has no diacritic, no whitespace other than ' ', no two adjacent spaces and no leading or trailing whitespace; it embeds in the input in order, with whitespace turned into ' '; it is no longer than the input |
| ArabicText.BasicCleanWords | text_preprocessing.py:19-26 | the output is the words of the diacritic-free input, less a leading all-digit word that another word follows, joined by single spaces; this fixes the output completely |
| ArabicText.BasicCleanRemovesOnePrefix | text_preprocessing.py:19-26 | the output is the three-stage text minus its longest leading `\d+\s+` match, so at most one number prefix is removed |
| ArabicText.BasicCleanOfCleanShape | text_preprocessing.py:19-26 | text already in cleaned shape loses only its leading number prefix |
| ArabicText.BasicCleanIdempotentIff | text_preprocessing.py:19-26 | cleaning a cleaned text again leaves it unchanged iff it does not start with another number prefix |
| ArabicText.BasicCleanDropsNumber | text_preprocessing.py:24 | a text "d t", where d is a digit and t is already clean, cleans to t |
| ArabicText.BasicCleanNotIdempotent | text_preprocessing.py:22-24 | "p q t" (for example "1 2 x") cleans to "q t", which cleans again to "t": `basic_clean` is not idempotent |
| ArabicText.StripOfCleanIsIdentity | text_preprocessing.py:37-39 | the `strip()` in the page filter does nothing to cleaned text, so the filter is a test on the cleaned length |
| PdfPipeline.CleanedTexts | text_preprocessing.py:37 | there is one cleaned text per page |
| PdfPipeline.CleanedTextsAreClean | text_preprocessing.py:37 | the cleaned text of page j has no diacritics and is single-spaced; its words are page j's words without diacritics, less a leading number word |
| PdfPipeline.KeepsPageWithoutOuterSpaces | text_preprocessing.py:39-40 | `KeepsPage`, the filter, tests the stripped length against 50; on text with no outer whitespace it keeps exactly the texts of at least 50 characters |
| PdfPipeline.PageDocument | text_preprocessing.py:42-49 | a kept page's document holds the cleaned content, records the given page number, and has a char_count equal to the content's length |
| PdfPipeline.CleanedDocumentsFiltered | text_preprocessing.py:35-50 | `CleanedDocuments` is the reference list of kept-page documents, appended in page order. It has no more documents than pages, and every document passes the filter |
| PdfPipeline.CleanedDocumentsStep | text_preprocessing.py:36-50 | one more page extends the list by that page's document exactly when the filter keeps it |
| PdfPipeline.CleanedDocumentsAreKeptPages | text_preprocessing.py:36-50 | each document the loop builds has exactly the metadata keys page, source and char_count. Its page p lies in 1..n; its content is the cleaned text of page p (0-based index p-1) and passes the filter; char_count is the content's length; source is the path |
| PdfPipeline.CleanedDocumentsInPageOrder | text_preprocessing.py:36-50 | page numbers are between 1 and the page count and strictly increasing: kept pages keep their order, with gaps where pages were dropped |
| PdfPipeline.CleanedDocumentsPageNumbers | text_preprocessing.py:36-50 | page j+1 appears among the documents iff the filter keeps page j |
| PdfPipeline.CleanedDocumentsContents | text_preprocessing.py:42-50 | each document's content is one of the cleaned page texts |
| PdfPipeline.CleanedPagesFacts | text_preprocessing.py:36-50 | with the filter `len(strip(cleaned)) >= 50`, the properties above hold of the cleaned pages |
| PdfPipeline.CleanPages | text_preprocessing.py:35-50 | the loop builds exactly `CleanedDocuments` of the cleaned pages. Every document is a kept page with its metadata; page numbers strictly increase; page j is kept, as page j+1, iff its cleaned text has at least 50 characters |
| PdfPipeline.CleanedDocumentsAreClean | text_preprocessing.py:37-50 | every kept document carries cleaned text: no diacritics, and only single plain spaces |
| PdfPipeline.NumberChunks | text_preprocessing.py:61-63 | the same number of chunks; chunk i keeps its content and its other metadata, and gains chunk_id = i and chunk_size = its content length |
| PdfPipeline.ProcessPdfForRag | text_preprocessing.py:28-66 | the chunks returned are the splitter's output on the cleaned documents, built with the given size and overlap (1000 and 200 by default) and the six separators, each numbered as above and in the splitter's order |
| PdfPipeline.PiecesAreClean | text_preprocessing.py:53-59 | contiguous pieces of cleaned documents carry cleaned text |
| PdfPipeline.ChunksAreClean | text_preprocessing.py:53-65 | when the splitter cuts documents into contiguous pieces, every chunk `process_pdf_for_rag` returns carries cleaned text |
| Episodes.Request | text_preprocessing.py:83-84 | the prompt is the instruction, a newline, then the chunk text |
| Episodes.BuildEpisodes | text_preprocessing.py:78-86 | one record per chunk, in order. Record i has exactly the keys content, type, description and name; content is chunk i's text and type is "text". description is the reply to request 2i (the description prompt with the text); name is the reply to request 2i+1 (the name prompt with the text) |
| Episodes.RunScript | text_preprocessing.py:68-86 | the script yields one such record per chunk of the splitter's output for chunk size 1500 and overlap 250. When the splitter cuts the cleaned documents into contiguous pieces, every record's content is cleaned text |

## Left out

- Loading the PDF (`load_pdf`, text_preprocessing.py:13-17) is file I/O. The model takes the page texts as input.
- The progress messages of `process_pdf_for_rag` are console output and are left out.
- Writing the episodes to `epsiodes.json` (text_preprocessing.py:88-89) is file I/O and is left out.
- `RecursiveCharacterTextSplitter` is not part of this model; it is the parameter `split`. No size or overlap bound is claimed for its chunks.
- PdfPipeline.ChunksAreClean: that chunks are contiguous pieces of the documents is a hypothesis about the splitter, not something proved.
- The chat model (`ChatOpenAI`) is not part of this model; it is the parameter `llm`. Failures and exceptions of its calls are not modelled.
- `\d` is not fixed to Python's Unicode decimal digits. It is the parameter `isDigit`, of which the model assumes only that no digit is whitespace.
- NumberChunks: the source updates each chunk's metadata dictionary in place. The model builds new document values, so any aliasing between the splitter's chunks and other objects is not captured.
- The class `ArabicTextPreprocessing` holds only the PDF path and the compiled pattern. The model passes the path as a parameter and makes the pattern the predicate `IsDiacritic`; there is no object.
