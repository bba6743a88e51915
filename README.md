# Word-by-word gloss translator — a Dafny model

This project models the core of `sample_test.py`, a small desktop translator. It translates a sentence between five languages. It also builds a *word-by-word gloss*: each token of the sentence has its surrounding punctuation stripped and is translated on its own, giving one `"<word> : <translation>"` line per token. The result can be saved as text or as a PDF.

The model has five modules:

- `PyText` (`py_text.dfy`) covers the Python string built-ins the program relies on, written out on sequences of characters:
  - `str.strip(chars)` and `str.strip()`, the latter over the characters for which `str.isspace()` holds;
  - `str.split('\n')`, `'\n'.join(...)` and `str.endswith`.

  It proves their laws: strip leaves a slice bordered by stripped characters, that slice is unique, and stripping is idempotent. Split and join are proved to be inverses.
- `Languages` (`languages.dfy`) is the `lang_display_names` table. The five languages form a datatype, and the `KeyError` of a failed lookup becomes `None`.
- `Gloss` (`gloss.dfy`) holds `explain_words_word_by_word` as a method with a loop. It also traces every word it sends to the translator, so call counts and call order can be stated. It is proved against the specification functions `CleanWords`, `GlossLines` and `Explanation`, and lemmas about those functions state:
  - the alignment between tokens, clean words and lines;
  - that a failure is confined to its own word;
  - how the lines are joined.
- `Session` (`session.dfy`) is the control flow of `translate_and_explain`: blank input, the two lookups, the sentence translation, and the gloss that follows only on success.
- `Export` (`export.dfy`) is `save_output`: the three-section content, the choice between `.txt`, `.pdf` and nothing, and the PDF's one cell per line.

Two collaborators are parameters:

- the tokenizer (`word_tokenize`), a function from a text to its tokens;
- the translation service (`GoogleTranslator(...).translate`), a function from `(text, source code, target code)` to `Ok(translation)` or `Err(message)`. An `Err` stands for any exception the call raises.

## Model

| member | source | states |
|---|---|---|
| Gloss.ExplainWordsWordByWord | sample_test.py:23-41 | The explanation is the gloss of the tokens joined with newlines. The words sent to the translator are exactly the clean words, in token order, one call each. No token and no token made only of punctuation means no call and an empty explanation. |
| Gloss.CleanWordsAligned | sample_test.py:31-34 | The clean words are in one-to-one correspondence with the tokens that do not strip to nothing. Their positions are strictly increasing. A token position is kept if and only if its stripped form is non-empty. |
| Gloss.CleanWordsAreClean | sample_test.py:32-34 | Every word sent to the translator is non-empty. It neither starts nor ends with punctuation, and stripping it again changes nothing. |
| Gloss.GlossLinesAligned | sample_test.py:31-39 | There is one line per kept token. Line k is the k-th kept token stripped, then `" : "`, then its translation, or `[Translation error]` when the call failed. |
| Gloss.FailureIsolation | sample_test.py:35-39 | Two translators that differ on one word give the same number of lines, and the same line for every other word. One failed word disturbs nothing else. |
| Gloss.FailureMarked | sample_test.py:37-39 | A word whose translation fails still gets its line, carrying `[Translation error]` in place of a translation. |
| Gloss.ExplanationEmpty | sample_test.py:31-41 | For any translator, including one whose answers hold newlines, the joined explanation is empty if and only if no token survives stripping. |
| Gloss.ExplanationLines | sample_test.py:41 | When at least one token survives and no word or translation holds a newline, the explanation splits back into exactly the gloss lines, so there is no trailing newline. |
| Gloss.HelloWorld | sample_test.py:23-41 | The tokens `Hello , world !` with an identity translator give `Hello : Hello` and `world : world` on two lines. |
| Gloss.HelloWorldWords | sample_test.py:31-34 | The tokens `Hello , world !` have the clean words `Hello` and `world`, in that order. |
| Languages.LookupCode | sample_test.py:15-21 | A display name has a code if and only if it names one of the five supported languages. That language's code is the one given. |
| Languages.NamesAndCodesDistinct | sample_test.py:15-21 | Different languages have different display names and different codes, so the table is one-to-one. |
| Session.TranslateAndExplain | sample_test.py:49-69 | Blank input gives the warning and makes no call. An unknown display name is reported. A failed sentence translation is reported with its message, and no word is translated. Otherwise the translation and the gloss are shown, and the calls are the sentence followed by the clean words. |
| Export.SaveOutput | sample_test.py:89-108 | A `.txt` path gets the three-section content as text. A `.pdf` path gets cells that hold no newline and join back to the content exactly. A cancelled dialog or any other path writes nothing. The three cases are exclusive and exhaustive. |
| Export.PdfLayout | sample_test.py:90-107 | When each text box ends in a newline (as a Tk text box's content does), the PDF lines are: the original heading line, a blank, the translated heading line, a blank, the gloss heading, the gloss lines and a final blank. |
| PyText.StripSpec | sample_test.py:32 | The result of `strip(chars)` neither starts nor ends with one of `chars`. It is empty if and only if the input consists only of `chars`. |
| PyText.StripIsSlice | sample_test.py:32 | `strip(chars)` returns a slice of its input whose outside is made of `chars` alone. |
| PyText.StripUnique | sample_test.py:32 | Such a slice is unique, so it is what `strip` returns. |
| PyText.StripIdempotent | sample_test.py:32 | Stripping twice is stripping once. |
| PyText.StripStartSpec | sample_test.py:32 | `lstrip(chars)` drops a prefix made of `chars` and stops at a character outside `chars`. |
| PyText.StripEndSpec | sample_test.py:32 | `rstrip(chars)` drops a suffix made of `chars` and stops at a character outside `chars`. |
| PyText.SplitLines | sample_test.py:106 | `split('\n')` gives at least one piece, and no piece holds a newline. |
| PyText.SplitAtNewline | sample_test.py:106 | Splitting `a + "\n" + b` splits `a` and `b` independently and concatenates the pieces. |
| PyText.SplitJoin | sample_test.py:41 | Splitting a newline-join of at least one newline-free line gives back the lines. |
| PyText.JoinSplit | sample_test.py:106 | Joining the pieces of any split gives back the string. |

## Left out

- The Tk window, its widgets, menus and message boxes. A dialog becomes a variant of `Session.Shown`, and the text boxes become string parameters.
- `word_tokenize` and the `punkt` download. The tokenizer is a parameter, and the model makes no claim about how NLTK segments text.
- The translation service. It is a deterministic parameter: the model assumes the same request gets the same answer within one action, and says nothing about translation quality. Network failures, bad language codes and every other exception raised by the translator are all one `Err`.
- `translate_full_sentence` has no contract of its own. It is one call to the translator, and `Session.TranslateAndExplain` states its effect.
- `play_audio`. Speech synthesis, the temporary MP3 file and pygame playback are I/O with nothing to prove.
- The file writing and the rendering in `save_output`. The FPDF page, font, margins, cell size and the UTF-8 encoding of the text file are left out. `Export.SaveOutput` stops at what would be written: the path and the text, or the path and the cells.
- The save dialog. Its `defaultextension` may append `.txt` to a bare name; the model takes the path as already chosen.
- Session.TranslateAndExplain: an unknown display name raises `KeyError` outside the `try` in the source, so the exception escapes the callback. The model reports it as `UnknownLanguage`. The pickers only offer names from the table, so this path cannot be reached from the window.
- Session.TranslateAndExplain: an exception from the tokenizer, or while filling the text boxes, is caught by the same `except` as a failed sentence translation. The model has no failing tokenizer, so it does not capture this.
- Export.PdfLayout: it assumes the names and the first two text boxes hold one line each and end in the newline Tk adds. The multi-line case is still covered by `Export.SaveOutput`'s join/split contract.
