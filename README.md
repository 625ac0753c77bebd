# Automated Anki Flashcard Maker — a Dafny model of the page splitter

The flashcard maker turns exam PDFs into Anki cards. Its one piece of real logic is
`extract_questions_and_answers`. That function reads the lowercased text of every page in
order and runs a two-state machine over them:

- **Question mode.** A page starting with `"question"` closes the open question buffer and
  opens a new one. The closed buffer is stored after `strip()`. Any other page is appended to
  the open buffer after a newline.
- **Answer mode.** The first page that mentions `"mark scheme"` switches the machine to
  answer mode for good. That page and every later page each become one answer.
- **End of input.** A buffer that is still open is stripped and becomes the last question.

The model also covers two small naming rules from the same file:

- the image file names `question_<i>.png` and `answer_<i>.png`;
- the deck name `pdf_file.replace(".pdf", "")`, together with the `.endswith(".pdf")` filter.

The project has three modules, one file each:

- `text.dfy` (`Text`): the Python string operations the splitter uses.
  - `str.lower()` on ASCII letters.
  - `str.strip()` with Python's own `isspace()` character set.
  - `startswith`, `endswith` and substring `in`.
- `splitter.dfy` (`Splitter`): the splitter in three forms.
  - The loop itself: the method `ExtractQuestionsAndAnswers`. Its variables are those of the
    source: a flag, a buffer and two lists.
  - The same machine as a fold: `Step`, `Run`, `Flush` and `Extract`. The method is proved equal
    to `Extract`.
  - An independent description of the result: `FirstMarker`, the first marker page, and
    `Units`, the unstripped question buffers. Lemmas connect it to the fold, and the
    properties of the splitter are proved from it.
- `naming.dfy` (`Naming`): image names, with a parser that inverts them, and deck names.

The page texts are the input: a document is a `seq<string>` of what `page.get_text()`
returns. The returned lists are plain strings, exactly as the code builds them.

Three facts about the code that the model keeps:

- Answers are the **lowercased** page texts: line 38 lowercases `text` and line 51 appends
  that same value.
- Questions and answers are **plain strings**; no page numbers are kept with them.
- In a five-page document whose marker is on page 2 (counting from 0), pages 2, 3 and 4 are
  all answers, so there are three answers. `Splitter.FivePageDocument` states this.

## Model

| member | source | states |
|---|---|---|
| Splitter.ExtractQuestionsAndAnswers | AutomatedAnkiFlashcardMaker.py:28-56 | The loop returns exactly `Extract(pages)`: the machine run over the lowercased page texts, followed by the final flush. One iteration of the loop body (lines 38-51) is the function `Step`. The loop invariant says that after `k` pages the flag, buffer and both lists are the fold's state on the first `k` texts. |
| Splitter.ExtractMatchesUnits | AutomatedAnkiFlashcardMaker.py:36-56 | The result described without the loop. The questions are the stripped units built from the lowercased texts before the first marker page. The answers are the lowercased texts from the marker page to the end. (`FlushRunMatchesUnits` states the same for texts already lowercased.) |
| Splitter.FirstMarker | AutomatedAnkiFlashcardMaker.py:40-41 | The index of the first text containing "mark scheme": no earlier text contains it, and the text at that index does. When no text contains it, the index is the number of texts. |
| Splitter.Units | AutomatedAnkiFlashcardMaker.py:44-49 | The question buffers before stripping. There are none exactly when there are no texts, and no buffer is ever empty, so every buffer is later flushed. |
| Splitter.UnitsOpenAtQuestionPages | AutomatedAnkiFlashcardMaker.py:44-49 | Every buffer after the first starts with "question". The first buffer starts with the first text when that text starts with "question", and otherwise with a newline followed by it. So a leading unprefixed page opens a buffer of its own. |
| Splitter.UnitsKeepEveryText | AutomatedAnkiFlashcardMaker.py:44-49 | Question-mode pages are never dropped or reordered. Joining the buffers with newlines gives the texts joined with newlines, with one extra leading newline when the first text does not start with "question". |
| Splitter.UnitCount | AutomatedAnkiFlashcardMaker.py:44-49 | Number of buffers = number of "question" texts, plus one when the first text lacks the prefix. |
| Splitter.RunInQuestionMode | AutomatedAnkiFlashcardMaker.py:43-49 | While no text mentions the marker, the loop's flag stays true and its answers stay empty. Its open buffer is the last unit, and its question list holds the earlier units, stripped. |
| Splitter.RunAtMarkerPage | AutomatedAnkiFlashcardMaker.py:40-51 | The first marker page switches the flag off and becomes the first answer. The buffer and questions stay as they were. |
| Splitter.AnswersFromThenOn | AutomatedAnkiFlashcardMaker.py:50-51 | Once in answer mode, every later text is appended to the answers in order, and the buffer and questions never change again. |
| Splitter.RunInAnswerMode | AutomatedAnkiFlashcardMaker.py:40-51 | After the first marker page, the state is the state before that page, with the flag off and the answers equal to the texts from the marker page on. |
| Splitter.ModeSwitchIsMonotonic | AutomatedAnkiFlashcardMaker.py:38-51 | After `k` pages the flag is true exactly when `k` is at most the index of the first marker page. Once it turns false it never turns true again. |
| Splitter.QuestionsOnlyFromPagesBeforeMarker | AutomatedAnkiFlashcardMaker.py:40-49 | Cutting the document just before the first marker page leaves the questions unchanged, and the cut document has no answers. So no page at or after the marker page contributes to the questions. |
| Splitter.AnswersAreMarkerPageOnwards | AutomatedAnkiFlashcardMaker.py:38-51 | There is one answer per page from the first marker page through the last page. The k-th answer is the lowercased text of page `m + k`. |
| Splitter.NoAnswersIffNoMarker | AutomatedAnkiFlashcardMaker.py:34-43 | The answers are empty exactly when no lowercased page contains "mark scheme". In that case every page is grouped into the questions. |
| Splitter.QuestionsAreTrimmed | AutomatedAnkiFlashcardMaker.py:46-54 | No question starts or ends with whitespace. |
| Splitter.QuestionCount | AutomatedAnkiFlashcardMaker.py:33-54 | No questions when the first page is a marker page or there are no pages. Otherwise: one question per "question" page before the marker page, plus one when page 0 lacks the prefix. |
| Splitter.EmptyDocument | AutomatedAnkiFlashcardMaker.py:29-56 | A document with no pages gives no questions and no answers. |
| Splitter.FivePageDocument | AutomatedAnkiFlashcardMaker.py:28-56 | The five-page example, on `Extract` and for already lowercase pages: a question page, a continuation, the marker page and two more pages. The result is one question (the first two pages joined by a newline, then stripped) and three answers, the marker page first. |
| Text.Lower | AutomatedAnkiFlashcardMaker.py:38 | `lower()` keeps the length and leaves no capital letter. Non-capitals are unchanged, and each capital becomes the matching small letter. |
| Text.StripSpec | AutomatedAnkiFlashcardMaker.py:46 | `strip()`, modelled by `Text.Strip`, returns a slice of its input that cuts off only whitespace and leaves none at either end. |
| Text.StripKeepsTrimmed | AutomatedAnkiFlashcardMaker.py:54 | Stripping a string that has no whitespace at its ends returns it unchanged. |
| Text.ContainsIffOccurs | AutomatedAnkiFlashcardMaker.py:40 | `sub in s`, modelled by `Text.Contains`, holds exactly when `sub` occurs in `s` at some index. |
| Naming.Decimal | AutomatedAnkiFlashcardMaker.py:132-133 | `str(i)` is a non-empty string of digits that starts with '0' only for 0. |
| Naming.DecimalRoundTrip | AutomatedAnkiFlashcardMaker.py:132-133 | Reading back the digits of `str(i)` gives `i`. |
| Naming.ImageNameRoundTrip | AutomatedAnkiFlashcardMaker.py:70 | The index can be parsed back from `f"{prefix}_{index}.png"`, which `Naming.ImageName` builds. |
| Naming.ImageNamesDistinct | AutomatedAnkiFlashcardMaker.py:132-133 | Two images with the same prefix and different indices never get the same file name. |
| Naming.CardImagesDifferOnlyInPrefix | AutomatedAnkiFlashcardMaker.py:132-133 | For one card index, `question_i.png` and `answer_i.png` agree after their prefixes, and both carry the index `i`. No question image name is ever an answer image name. |
| Naming.DeckName | AutomatedAnkiFlashcardMaker.py:126 | The deck name is never longer than the file name. |
| Naming.DeckNameKeepsOnlyNamesWithoutPdf | AutomatedAnkiFlashcardMaker.py:126 | The deck name equals the file name exactly when the name does not contain ".pdf". Otherwise it is at least 4 characters shorter. |
| Naming.DeckNameRemovesEachOccurrence | AutomatedAnkiFlashcardMaker.py:126 | `replace` scans from the left. The text before the first ".pdf" is kept, that ".pdf" is removed, and the rest of the name is handled the same way. |
| Naming.DeckNameDropsExtension | AutomatedAnkiFlashcardMaker.py:126 | For a file that the `.endswith(".pdf")` filter of line 9 (`Naming.IsPdfFile`) selects and whose name contains ".pdf" only at its end, the deck name is the name without the extension. |
| Naming.DeckNameRemovesInnerPdf | AutomatedAnkiFlashcardMaker.py:126 | A ".pdf" inside the name is removed as well as the extension: "notes.pdf.v2.pdf" gives "notes.v2". |
| Naming.DeckNameMayEndInPdf | AutomatedAnkiFlashcardMaker.py:126 | Removing ".pdf" can produce a deck name that again ends in ".pdf". For example, "a..pdfpdf" gives "a.pdf", which `Naming.IsPdfFile`, the `.pdf` filter, would select. |

## Left out

- PDF access through PyMuPDF is not modelled: `fitz.open`, `page.get_text`, `page.searchFor`, `page.get_pixmap` and `.save` (lines 31, 37-38, 64-70). These are a foreign library. The page texts are taken as input instead.
- `capture_and_save_region_as_image` (63-70) is left out, apart from the image name it builds. The rest is rasterisation and file output.
- `take_question_and_answer_screenshots` (72-85) is left out.
  - It unpacks each question and answer string as a `(page number, text)` pair, which the splitter never returns.
  - It indexes `answers[i - 1]` without checking the length.
  - So there is no consistent behaviour to state for it.
- `clear_directory_contents` (16-24) and the `os.listdir` calls (9, 129) are filesystem housekeeping. The `.pdf` filter of line 9 is modelled as a predicate on one file name.
- `create_anki_deck` and `add_anki_card` (92-113) are HTTP requests to AnkiConnect and are left out.
- The module-level loop over the PDF files (139-141) and the configuration globals (8-12) are left out.
- `os.path.join` around the image names (70, 132-133) is left out. The model covers only the file name it joins.
- Text.Lower: models `str.lower()` on ASCII letters only. Python also lowercases non-ASCII capitals, which the model leaves unchanged.
- Splitter.ExtractQuestionsAndAnswers: the page loop runs over the given page texts. The `range(len(doc))` bound and the document handle are not modelled.
- Naming.ImageNameRoundTrip: `ImageIndex` is an inverse parser defined only in the model. The source never parses image names back; the parser is there to state that the names are unambiguous.
- The cards loop at lines 131-134 counts the files in the question directory. That count comes from the filesystem and is not modelled; only the names it builds for each index are.
