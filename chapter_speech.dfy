/** The text side of turning one chapter into speech (`process_chapters_fast`):
    the chapter's content is cleaned, a chapter whose cleaned text is blank
    is skipped, and the rest is cut into chunks of at most 5000 characters,
    each of which is handed to a speech engine. */
module ChapterSpeech {
  import opened TextPrimitives
  import TextCleaning
  import Chunking

  /** The chunk budget the converter passes to the splitter. */
  const MaxChunkSize := 5000

  /** The chunks of text spoken for a chapter's content, in order; none
      exactly when the cleaned content is blank. */
  function SpokenChunks(content: string): (r: seq<string>)
    ensures r == [] <==> IsBlank(TextCleaning.CleanText(content))
  {
    var clean := TextCleaning.CleanText(content);
    if Strip(clean) == "" then []
    else
      SplitNonBlank(clean);
      Chunking.SplitChunks(clean, MaxChunkSize)
  }

  /** A text that is not blank is split into at least one chunk. */
  lemma SplitNonBlank(text: string)
    requires !IsBlank(text)
    ensures Chunking.SplitChunks(text, MaxChunkSize) != []
  {
    if |text| > MaxChunkSize {
      var i :| 0 <= i < |text| && !IsSpace(text[i]);
      WordsNonEmpty(text, i);
      Chunking.SplitEmptyChunks(text, MaxChunkSize);
    }
  }

  /** A chapter is skipped exactly when its cleaned text is blank. Otherwise
      the spoken chunks carry exactly the words of the cleaned text, in
      order, and each chunk is within the budget or is one over-long word. */
  lemma SpokenChunksSpeakCleanText(content: string)
    ensures var clean := TextCleaning.CleanText(content);
      var r := SpokenChunks(content);
      (r == [] <==> IsBlank(clean)) &&
      Flatten(Chunking.ChunkWords(r)) == Words(clean) &&
      forall k | 0 <= k < |r| :: |r[k]| <= MaxChunkSize || |Words(r[k])| == 1
  {
    var clean := TextCleaning.CleanText(content);
    var r := SpokenChunks(content);
    if IsBlank(clean) {
      WordsOfBlank(clean);
    } else if |clean| <= MaxChunkSize {
      assert r == [clean];
      assert Chunking.ChunkWords(r) == [Words(clean)];
      assert [Words(clean)][1..] == [];
    } else {
      Chunking.SplitKeepsWords(clean, MaxChunkSize);
      Chunking.SplitRespectsBudget(clean, MaxChunkSize);
      Chunking.SplitEmptyChunks(clean, MaxChunkSize);
      var i :| 0 <= i < |clean| && !IsSpace(clean[i]);
      WordsNonEmpty(clean, i);
    }
  }

  /** The words spoken for a chapter are the chapter's own words after the
      characters `clean_text_fast` deletes are removed from them: cleaning
      joins and splits no words. */
  lemma SpokenChunksSpeakChapterWords(content: string)
    ensures Flatten(Chunking.ChunkWords(SpokenChunks(content))) ==
      Words(KeepOnly(content, TextCleaning.IsCleanChar))
  {
    SpokenChunksSpeakCleanText(content);
    TextCleaning.WordsOfClean(content);
  }
}
