# Text logic of the PDF-to-audiobook converter, in Dafny

The converter in `book_voice_studio.py` (class `PDFToAudiobook`) reads a PDF
page by page, groups the pages into chapters, cleans each chapter's text,
cuts it into chunks for a speech engine and stores each chapter's audio under
a file-name-safe form of its title. This project models the converter's own
text logic and proves what it guarantees:

- `TextPrimitives` (`text_primitives.dfy`) holds the Python string operations
  the converter relies on. It has the whitespace classes of `str.isspace`,
  `\s`, `\w` and `\d`, plus `strip()`, `split()`, `' '.join`,
  `replace` and the character deletion done by `re.sub(r'[^...]', '', s)`.
- `TextCleaning` (`text_cleaning.dfy`) models `clean_text_fast` and the
  safe-title expression.
- `Chunking` (`chunking.dfy`) models `split_text_fast`. The method
  `SplitText` runs the source's loop and is proved equal to the spec
  function `SplitChunks`. The properties are lemmas about `SplitChunks`.
- `ChapterGrouping` (`chapter_grouping.dfy`) models the page loop of
  `extract_text_from_pdf`. The method `ExtractChapters` runs the loop and is
  proved equal to the spec function `ExtractedChapters`. The PDF is the
  list of its page texts plus a flag saying whether extraction stopped on an
  error.
- `ChapterSpeech` (`chapter_speech.dfy`) models the text side of
  `process_chapters_fast`. A chapter's content is cleaned, a blank chapter
  is skipped, and the rest is split under a budget of 5000.

The whitespace class is the exact `str.isspace` table. Python's `split()`,
`strip()` and the regular expression `\s` all use that table. `\w` and `\d`
are the ASCII classes (see "Left out").

## Model

| member | source | states |
|---|---|---|
| TextPrimitives.Strip | book_voice_studio.py:255 | `strip()` gives the input with its leading and trailing whitespace runs removed. It is empty exactly when the input is blank, and otherwise starts and ends with non-whitespace. |
| TextPrimitives.StripUnique | book_voice_studio.py:255 | `strip()` is fixed by its properties: blank text, then a part with non-whitespace at both ends, then blank text, strips to exactly that part. |
| TextPrimitives.Words | book_voice_studio.py:263 | `split()` gives non-empty words that contain no whitespace. What the words are is fixed by `TextPrimitives.WordsOfJoin` and `TextCleaning.JoinOfWords`. |
| TextPrimitives.WordsOfJoin | book_voice_studio.py:270 | Joining valid words with single spaces and splitting again gives back the same words. |
| TextPrimitives.WordsOfStrip | book_voice_studio.py:255 | Stripping a text does not change its words. |
| TextPrimitives.JoinWords | book_voice_studio.py:270 | `' '.join` gives a text that starts with the first word and whose length is the words' total length plus one separator between each pair of neighbours. |
| TextPrimitives.ReplaceChar | book_voice_studio.py:232 | `replace(' ', '_')` keeps the length and changes exactly the matching characters. |
| TextPrimitives.KeepOnly | book_voice_studio.py:254 | Deleting the characters outside a class gives a subsequence of the input in which every character is in the class. |
| TextPrimitives.KeepOnlyCount | book_voice_studio.py:254 | Deletion keeps every kept character as often as it occurs, and no other character. |
| TextCleaning.CollapseSpaces | book_voice_studio.py:253 | After collapsing whitespace runs, the only whitespace is ' '. No two spaces are adjacent. The result is empty only for empty input and starts with whitespace exactly when the input does. |
| TextCleaning.CollapseSpacesLast | book_voice_studio.py:253 | The collapsed text ends with whitespace exactly when the input does. With the no-adjacent-spaces clause and `WordsOfCollapse`, this fixes the result of `re.sub(r'\s+', ' ', s)`. |
| TextCleaning.CollapseKeepsNonSpace | book_voice_studio.py:253 | Collapsing keeps every non-whitespace character as often as it occurs. |
| TextCleaning.WordsOfCollapse | book_voice_studio.py:253 | Collapsing whitespace does not change the text's words. |
| TextCleaning.JoinOfWords | book_voice_studio.py:263 | Joining a text's words with single spaces gives the text with its whitespace runs collapsed to one space and its ends stripped. Together with `WordsOfJoin`, this determines `split()` exactly. |
| TextCleaning.StripKeepsNonSpace | book_voice_studio.py:255 | Stripping keeps every non-whitespace character as often as it occurs. |
| TextCleaning.CleanText | book_voice_studio.py:250-255 | The cleaned text has no whitespace at either end. Its only whitespace is ' '. Every character is a word character, a space or one of `. , ! ? - '`. It is the whitespace-collapsed input with characters deleted. |
| TextCleaning.CleanTextCount | book_voice_studio.py:253-255 | Each allowed non-whitespace character survives cleaning as often as it occurs in the input, and each disallowed one disappears. |
| TextCleaning.WordsOfClean | book_voice_studio.py:250-255 | The words of the cleaned text are the words of the input after the disallowed characters are deleted, so cleaning joins or splits no words beyond what that deletion does. |
| TextCleaning.SafeTitle | book_voice_studio.py:232 | The safe title is no longer than the title and contains no space. Each character is a word character ('_' included), '-' or non-space whitespace. It has no whitespace at either end. |
| TextCleaning.SafeTitleCount | book_voice_studio.py:232 | Every non-whitespace character other than '_' survives in the safe title as often as it occurs in the title when the model's title class admits it (ASCII word characters, whitespace, '-'; see "Left out"), and not at all otherwise. |
| TextCleaning.SafeTitleOfUnpadded | book_voice_studio.py:232 | A title made only of kept characters, with no whitespace at its ends, only has its spaces replaced by '_'. |
| TextCleaning.SafeTitleOfTwoWords | book_voice_studio.py:232 | Two words of word characters separated by one space become the two words joined by '_'. |
| TextCleaning.SafeTitleIdempotent | book_voice_studio.py:232 | Applying the safe-title transformation twice gives the same result as applying it once. |
| Chunking.JoinLength | book_voice_studio.py:265-275 | A joined chunk is one character shorter than its running budget, the sum of `len(word) + 1`. |
| Chunking.SplitText | book_voice_studio.py:257-280 | The loop returns what the spec function `SplitChunks` describes. A text no longer than `max_chars` comes back as the single chunk `[text]`, unchanged. |
| Chunking.PackWellPacked | book_voice_studio.py:264-275 | Invariant of the loop: the closed and current chunks, in order, hold exactly the words read so far. Every closed chunk after the first is non-empty. Every chunk stays within budget unless it is a single word. The next chunk's first word did not fit. |
| Chunking.SplitKeepsWords | book_voice_studio.py:262-279 | In the long-text branch, the chunks' words taken in order are exactly `text.split()`: nothing is dropped, duplicated or reordered. |
| Chunking.SplitRespectsBudget | book_voice_studio.py:266-275 | In the long-text branch, a chunk of two or more words has a budget of at most `max_chars`, so its length is at most `max_chars - 1`. A non-empty chunk of length `max_chars` or more holds a single word. |
| Chunking.SplitEmptyChunks | book_voice_studio.py:262-279 | In the long-text branch, there are no chunks exactly when the text has no words. Only the first chunk can be empty, and it is empty exactly when the first word's `len + 1` exceeds `max_chars`. |
| Chunking.SplitIsGreedy | book_voice_studio.py:266-271 | Every chunk after the first starts with a word that would not have fit into the chunk before it. |
| ChapterGrouping.Decimal | book_voice_studio.py:109 | The chapter number's numeral is non-empty, made of digits, and has no leading zero. |
| ChapterGrouping.DecimalRoundTrip | book_voice_studio.py:109 | Reading the numeral back gives the chapter number. |
| ChapterGrouping.ChapterTitle | book_voice_studio.py:109 | The title `f"Chapter {n}"` is "Chapter " followed by decimal digits that read back as `n`. `ChapterTitleInjective` and `DecimalRoundTrip` make titles of different numbers differ. |
| ChapterGrouping.ChapterTitleInjective | book_voice_studio.py:108-109 | Different chapter numbers give different titles, and no chapter title is "Full Book". |
| ChapterGrouping.SafeChapterTitle | book_voice_studio.py:232 | The file-name form of "Chapter n" is "Chapter_n". |
| ChapterGrouping.HeadingAtIff | book_voice_studio.py:104 | The greedy check for the heading pattern at a position (the word "chapter" in any case, a whitespace run, then a digit) holds exactly where the pattern matches with backtracking. |
| ChapterGrouping.HasHeading | book_voice_studio.py:104 | The page contains the heading pattern exactly when the backtracking pattern (the word "chapter" in any case, a non-empty whitespace run, a digit) matches somewhere in it. |
| ChapterGrouping.PagesTextAppend | book_voice_studio.py:99-113 | The text accumulated from pages (each page's text plus a newline) distributes over concatenation of page lists. |
| ChapterGrouping.ExtractChapters | book_voice_studio.py:92-121 | The page loop returns what the spec function `ExtractedChapters` describes, and the result is never empty. |
| ChapterGrouping.GroupPagesWellGrouped | book_voice_studio.py:99-113 | Invariant of the page loop. Chapters are consecutive blocks of pages, in order. Chapter k is titled "Chapter k". Each closed chapter holds its block's non-blank text. Each chapter after the first starts at a page that matches the heading pattern. A matching page inside a chapter has only blank text before it in that chapter. |
| ChapterGrouping.GroupPagesChapters | book_voice_studio.py:93-113 | After the page loop, closed chapter k is titled "Chapter k" and has non-blank content, and the current chapter's number is one more than the number of closed chapters. While no chapter has been closed, the current content is all the pages' text. |
| ChapterGrouping.GroupPagesCoverage | book_voice_studio.py:99-113 | The closed chapters' contents followed by the current content are exactly the pages' texts, each followed by a newline. |
| ChapterGrouping.ExtractedChaptersShape | book_voice_studio.py:93-121 | The result is never empty. Either it is the single "Full Book" entry holding all the pages' text, or its titles are "Chapter 1" to "Chapter n" in order and every entry has non-blank content. |
| ChapterGrouping.ExtractedTitlesDistinct | book_voice_studio.py:105-121 | No two returned chapters have the same title. |
| ChapterGrouping.FullBookWhenBlank | book_voice_studio.py:115-121 | Without an extraction error, the "Full Book" entry is returned exactly when the whole text of the pages is blank. |
| ChapterGrouping.ExtractedChaptersCoverage | book_voice_studio.py:99-121 | The returned contents, concatenated, are a prefix of the pages' text. Without an extraction error, only a blank tail is left over. |
| ChapterSpeech.SpokenChunksSpeakCleanText | book_voice_studio.py:171-180 | A chapter is skipped exactly when its cleaned text is blank. Otherwise the chunks sent to the speech engine hold exactly the cleaned text's words, in order, and each chunk is at most 5000 characters long or is a single word. |
| ChapterSpeech.SpokenChunksSpeakChapterWords | book_voice_studio.py:171-180 | The words spoken for a chapter are the chapter's own words with the characters outside the model's cleaning class removed from them (that class is ASCII-only for `\w`; see "Left out"). |
| ChapterSpeech.SpokenChunks | book_voice_studio.py:173-180 | No chunks are spoken exactly when the cleaned content is blank; `SpokenChunksSpeakCleanText` and `SpokenChunksSpeakChapterWords` fix what the chunks hold. |

## Left out

- The Streamlit user interface, session state, chapter selection and downloads are interface code.
- PDF parsing (`PyPDF2.PdfReader`, `extract_text`) is replaced by the list of page texts extracted before any error, plus a flag saying whether an error occurred.
- The error message shown on an extraction error is output only. Its effect, that the last chapter is not closed, is modelled.
- The speech engines (gTTS, edge-tts, pyttsx3) are network, asynchronous or native calls.
- Audio handling is file and audio I/O and is not modelled. This covers pydub loading, concatenation, silence and export, temporary files, copying and removal, and the audio merge.
- A speech engine can fail on a chunk; that outcome is not modelled.
- `FastVoiceCloner` is not modelled. Its loudness matching is floating-point audio processing done by a library.
- The timestamp in saved file names comes from the clock. Only the safe-title part of the name is modelled.
- The unused imports (OCR, PyMuPDF, requests, numpy) are not modelled.
- TextPrimitives.IsWordChar and TextPrimitives.IsDigit cover ASCII only. Python's `\w` matches every character for which `str.isalnum()` holds, plus '_'. That covers non-ASCII letters, digits and other numeric characters such as '½' and '²'. Python's `\d` matches every Unicode decimal digit. The Unicode tables are not modelled, so the following members differ from the source on such input.
- TextCleaning.CleanText deletes non-ASCII alphanumeric characters that `clean_text_fast` keeps, such as the 'é' of "café".
- TextCleaning.CleanTextCount states its counts for the ASCII word class only, for the same reason.
- TextCleaning.SafeTitle deletes non-ASCII alphanumeric characters that the source's `\w` keeps in a title, such as the 'é' of "Café".
- TextCleaning.SafeTitleCount states its counts for the ASCII word class only, for the same reason: it counts 'é' as deleted.
- TextCleaning.WordsOfClean compares with the input after deletion by the ASCII class, so its words lack the non-ASCII alphanumeric characters that the source keeps.
- ChapterSpeech.SpokenChunksSpeakChapterWords inherits the same gap from WordsOfClean.
- ChapterGrouping.HasHeading does not detect a heading whose number uses non-ASCII digits, such as "Chapter ٣", which the source's `\d` matches. Such a page does not start a new chapter in the model.
- `clean_text_fast` is not idempotent. Deleting punctuation between two spaces leaves a double space that a second pass would collapse. No idempotence lemma is stated for it.
