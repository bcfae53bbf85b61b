/** The chapter grouping done while reading a PDF (`extract_text_from_pdf`).
    The PDF is given as the texts of its pages, in order, as far as they could
    be extracted, and a flag that says whether extraction stopped on an
    error. Every page's text plus a newline goes into the current chapter; a
    page that matches the heading pattern starts a new chapter, but only when
    the current one already has non-blank content. */
module ChapterGrouping {
  import opened TextPrimitives
  import TextCleaning

  datatype Chapter = Chapter(title: string, content: string)

  // ---------------------------------------------------------------------
  // Chapter titles: the word "Chapter", a space, and the decimal number

  /** The decimal digit for `d`. */
  function DigitChar(d: nat): (c: char)
    requires d < 10
    ensures IsDigit(c)
  {
    ('0' as int + d) as char
  }

  /** `str(n)`: the decimal numeral of `n`, without leading zeros. */
  function Decimal(n: nat): (s: string)
    ensures |s| >= 1
    ensures forall i | 0 <= i < |s| :: IsDigit(s[i])
    ensures s[0] == '0' ==> n == 0
    decreases n
  {
    if n < 10 then [DigitChar(n)] else Decimal(n / 10) + [DigitChar(n % 10)]
  }

  /** The number a numeral of decimal digits denotes. */
  function DecimalValue(s: string): nat
    requires forall i | 0 <= i < |s| :: IsDigit(s[i])
  {
    if s == [] then 0
    else
      assert IsDigit(s[|s| - 1]);
      10 * DecimalValue(s[..|s| - 1]) + (s[|s| - 1] as int - '0' as int)
  }

  /** Reading back the numeral gives the number. */
  lemma {:induction false} DecimalRoundTrip(n: nat)
    ensures DecimalValue(Decimal(n)) == n
    decreases n
  {
    if n >= 10 {
      var s := Decimal(n);
      assert s[..|s| - 1] == Decimal(n / 10);
      DecimalRoundTrip(n / 10);
    }
  }

  /** The title of the chapter numbered `n`, `f"Chapter {n}"`: the word, a
      space, and a numeral of decimal digits that reads back as `n`. */
  function ChapterTitle(n: nat): (r: string)
    ensures |r| > 8 && r[..8] == "Chapter "
    ensures forall k | 8 <= k < |r| :: IsDigit(r[k])
    ensures DecimalValue(r[8..]) == n
  {
    DecimalRoundTrip(n);
    var r := "Chapter " + Decimal(n);
    assert r[8..] == Decimal(n);
    r
  }

  /** The title given when no chapter has non-blank content. */
  const FullBookTitle: string := "Full Book"

  /** Different chapter numbers give different titles, and no chapter title
      is the "Full Book" title. */
  lemma ChapterTitleInjective(m: nat, n: nat)
    ensures ChapterTitle(m) == ChapterTitle(n) <==> m == n
    ensures ChapterTitle(n) != FullBookTitle
  {
    if ChapterTitle(m) == ChapterTitle(n) {
      assert Decimal(m) == ChapterTitle(m)[8..];
      assert Decimal(n) == ChapterTitle(n)[8..];
      DecimalRoundTrip(m);
      DecimalRoundTrip(n);
    }
    assert ChapterTitle(n)[0] == 'C' && FullBookTitle[0] == 'F';
  }

  /** The file-name form of a chapter title: the space becomes '_'. */
  lemma SafeChapterTitle(n: nat)
    ensures TextCleaning.SafeTitle(ChapterTitle(n)) == "Chapter" + "_" + Decimal(n)
  {
    var d := Decimal(n);
    assert ChapterTitle(n) == "Chapter" + " " + d;
    TextCleaning.SafeTitleOfTwoWords("Chapter", d);
  }

  // ---------------------------------------------------------------------
  // The heading pattern: "chapter" in any case, whitespace, a digit

  /** The seven characters at `i` spell "chapter" in any mix of cases. */
  predicate ChapterWordAt(text: string, i: nat)
    requires i + 7 <= |text|
  {
    forall k | 0 <= k < 7 :: text[i + k] == "chapter"[k] || text[i + k] == "CHAPTER"[k]
  }

  /** The greedy reading of the pattern at `i`: the word, then a whitespace
      run of at least one character, then a digit. */
  predicate HeadingAt(text: string, i: nat) {
    i + 7 < |text| && ChapterWordAt(text, i) && IsSpace(text[i + 7]) &&
    var e := i + 7 + LeadingSpaces(text[i + 7..]);
    e < |text| && IsDigit(text[e])
  }

  /** `re.search(r'chapter\s+\d', text, re.IGNORECASE)`: the page's text
      contains the heading pattern somewhere, found by the greedy test at
      each position; this is exactly where the backtracking pattern matches. */
  predicate HasHeading(text: string)
    ensures HasHeading(text) <==> exists i: nat, j: nat :: MatchesHeading(text, i, j)
  {
    HeadingAnywhereIff(text);
    exists i: nat | i < |text| :: HeadingAt(text, i)
  }

  /** HeadingAtIff at every position. */
  lemma HeadingAnywhereIff(text: string)
    ensures (exists i: nat | i < |text| :: HeadingAt(text, i)) <==>
      exists i: nat, j: nat :: MatchesHeading(text, i, j)
  {
    if exists i: nat, j: nat :: MatchesHeading(text, i, j) {
      var i: nat, j: nat :| MatchesHeading(text, i, j);
      HeadingAtIff(text, i);
    }
    if exists i: nat | i < |text| :: HeadingAt(text, i) {
      var i: nat :| i < |text| && HeadingAt(text, i);
      HeadingAtIff(text, i);
    }
  }

  /** The pattern's meaning with backtracking: the word at `i`, a non-empty
      whitespace run up to `j`, and a digit at `j`. */
  ghost predicate MatchesHeading(text: string, i: nat, j: nat) {
    i + 7 < j < |text| && ChapterWordAt(text, i) && IsBlank(text[i + 7..j]) && IsDigit(text[j])
  }

  /** The greedy reading matches exactly where the pattern does. */
  lemma HeadingAtIff(text: string, i: nat)
    ensures HeadingAt(text, i) <==> exists j: nat :: MatchesHeading(text, i, j)
  {
    if HeadingAt(text, i) {
      var e := i + 7 + LeadingSpaces(text[i + 7..]);
      assert text[i + 7..e] == text[i + 7..][..e - (i + 7)];
      assert MatchesHeading(text, i, e);
    }
    if j: nat :| MatchesHeading(text, i, j) {
      var t := text[i + 7..];
      var n := LeadingSpaces(t);
      assert forall k | 0 <= k < j - (i + 7) :: t[k] == text[i + 7..j][k];
      assert t[j - (i + 7)] == text[j];
      assert n == j - (i + 7);
    }
  }

  // ---------------------------------------------------------------------
  // The page loop

  /** What the chapters' content is built from: each page's text followed by
      a newline, in page order. */
  function PagesText(pages: seq<string>): string {
    if pages == [] then "" else PagesText(pages[..|pages| - 1]) + pages[|pages| - 1] + "\n"
  }

  lemma {:induction false} PagesTextAppend(a: seq<string>, b: seq<string>)
    ensures PagesText(a + b) == PagesText(a) + PagesText(b)
    decreases |b|
  {
    if b == [] {
      assert a + b == a;
    } else {
      assert (a + b)[..|a + b| - 1] == a + b[..|b| - 1];
      PagesTextAppend(a, b[..|b| - 1]);
    }
  }

  /** The loop state: the chapters closed so far, the current chapter's
      content, its number, and the index of the first page of every chapter,
      the current one last. The source keeps no such list; `starts` only
      records where each chapter began, for the properties below. */
  datatype Grouping = Grouping(chapters: seq<Chapter>, content: string, chapterNum: nat, starts: seq<nat>)

  /** One iteration for page number `pageNum`: when the page matches the
      heading pattern and the current content is not blank, the current
      chapter is closed and chapter `chapterNum + 1` is started; then the
      page's text and a newline are appended to the current content. */
  function GroupStep(g: Grouping, page: string, pageNum: nat): Grouping {
    var g' :=
      if Splits(g, page) then
        Grouping(g.chapters + [Chapter(ChapterTitle(g.chapterNum), g.content)], "",
                 g.chapterNum + 1, g.starts + [pageNum])
      else g;
    g'.(content := g'.content + page + "\n")
  }

  /** The loop run over all pages, from chapter 1 with empty content. */
  function GroupPages(pages: seq<string>): Grouping
    decreases |pages|
  {
    if pages == [] then Grouping([], "", 1, [0])
    else GroupStep(GroupPages(pages[..|pages| - 1]), pages[|pages| - 1], |pages| - 1)
  }

  /** What `extract_text_from_pdf` returns. After the loop, a current chapter
      with non-blank content is closed too, unless extraction stopped on an
      error (the exception skips that step). With no chapter at all, the
      result is one "Full Book" entry holding the current content. */
  function ExtractedChapters(pages: seq<string>, failed: bool): seq<Chapter> {
    var g := GroupPages(pages);
    var chapters :=
      if !failed && !IsBlank(g.content) then g.chapters + [Chapter(ChapterTitle(g.chapterNum), g.content)]
      else g.chapters;
    if chapters == [] then [Chapter(FullBookTitle, g.content)] else chapters
  }

  /** `extract_text_from_pdf`: the loop over the pages. */
  method ExtractChapters(pages: seq<string>, failed: bool) returns (chapters: seq<Chapter>)
    ensures chapters == ExtractedChapters(pages, failed)
    ensures |chapters| >= 1
  {
    chapters := [];
    var current := Chapter(ChapterTitle(1), "");
    var chapterNum: nat := 1;
    ghost var starts: seq<nat> := [0];
    for pageNum := 0 to |pages|
      invariant GroupPages(pages[..pageNum]) == Grouping(chapters, current.content, chapterNum, starts)
      invariant current.title == ChapterTitle(chapterNum)
    {
      assert pages[..pageNum + 1][..pageNum] == pages[..pageNum];
      var text := pages[pageNum];
      if HasHeading(text) {
        if Strip(current.content) != "" {
          chapters := chapters + [current];
          chapterNum := chapterNum + 1;
          current := Chapter(ChapterTitle(chapterNum), "");
          starts := starts + [pageNum];
        }
      }
      current := current.(content := current.content + text + "\n");
    }
    assert pages[..|pages|] == pages;
    if !failed && Strip(current.content) != "" {
      chapters := chapters + [current];
    }
    if chapters == [] {
      chapters := [Chapter(FullBookTitle, current.content)];
    }
  }

  /** Where block `k` of pages ends: at the next chapter's first page, or at
      the end of the pages for the current chapter. */
  function BlockEnd(starts: seq<nat>, k: nat, total: nat): nat
    requires k < |starts|
  {
    if k + 1 < |starts| then starts[k + 1] else total
  }

  /** The blocks of pages: one per closed chapter plus one for the current
      chapter, following each other from page 0. */
  ghost predicate BlocksInOrder(pages: seq<string>, g: Grouping) {
    var n := |g.chapters|;
    |g.starts| == n + 1 && g.chapterNum == n + 1 && g.starts[0] == 0 &&
    (forall k, l | 0 <= k < l <= n :: g.starts[k] < g.starts[l]) &&
    g.starts[n] <= |pages| && (n > 0 ==> g.starts[n] < |pages|)
  }

  /** Chapter k is numbered k + 1 and holds exactly the text of its block,
      which is not blank; the current content is the text of the last block. */
  ghost predicate ChaptersAreBlocks(pages: seq<string>, g: Grouping)
    requires BlocksInOrder(pages, g)
  {
    var n := |g.chapters|;
    (forall k | 0 <= k < n ::
      g.chapters[k] == Chapter(ChapterTitle(k + 1), PagesText(pages[g.starts[k]..g.starts[k + 1]]))) &&
    (forall k | 0 <= k < n :: !IsBlank(g.chapters[k].content)) &&
    g.content == PagesText(pages[g.starts[n]..])
  }

  /** Every block but the first begins with a page matching the heading
      pattern. */
  ghost predicate BlocksStartAtHeadings(pages: seq<string>, g: Grouping)
    requires BlocksInOrder(pages, g)
  {
    forall k | 0 < k <= |g.chapters| :: HasHeading(pages[g.starts[k]])
  }

  /** A heading page inside a block found the content before it blank, which
      is why it did not start a new chapter. */
  ghost predicate SplitsAreMaximal(pages: seq<string>, g: Grouping)
    requires BlocksInOrder(pages, g)
  {
    forall k, p | 0 <= k <= |g.chapters| && g.starts[k] < p < BlockEnd(g.starts, k, |pages|) && p < |pages| ::
      HasHeading(pages[p]) ==> IsBlank(PagesText(pages[g.starts[k]..p]))
  }

  /** What the loop keeps true after `pages`. */
  ghost predicate WellGrouped(pages: seq<string>, g: Grouping) {
    BlocksInOrder(pages, g) && ChaptersAreBlocks(pages, g) &&
    BlocksStartAtHeadings(pages, g) && SplitsAreMaximal(pages, g)
  }

  /** Whether the page just read splits the current chapter: the page has a
      chapter heading and the current chapter's content is not blank. */
  predicate Splits(g: Grouping, page: string) {
    HasHeading(page) && !IsBlank(g.content)
  }

  /** Appending a page at the end adds its text to the text of any block
      that runs to the end, and leaves earlier blocks alone. */
  lemma PagesTextExtend(pages: seq<string>, page: string, a: nat)
    requires a <= |pages|
    ensures PagesText((pages + [page])[a..]) == PagesText(pages[a..]) + page + "\n"
    ensures (pages + [page])[a..|pages|] == pages[a..]
  {
    var t := (pages + [page])[a..];
    assert t[..|t| - 1] == pages[a..];
  }

  lemma StepBlocksInOrder(pages: seq<string>, g: Grouping, page: string)
    requires BlocksInOrder(pages, g) && ChaptersAreBlocks(pages, g)
    ensures BlocksInOrder(pages + [page], GroupStep(g, page, |pages|))
  {
    var n := |g.chapters|;
    if g.starts[n] == |pages| {
      assert pages[g.starts[n]..] == [];
    }
  }

  lemma StepChaptersAreBlocks(pages: seq<string>, g: Grouping, page: string)
    requires BlocksInOrder(pages, g) && ChaptersAreBlocks(pages, g)
    ensures BlocksInOrder(pages + [page], GroupStep(g, page, |pages|))
    ensures ChaptersAreBlocks(pages + [page], GroupStep(g, page, |pages|))
  {
    StepBlocksInOrder(pages, g, page);
    var pages' := pages + [page];
    var g' := GroupStep(g, page, |pages|);
    var n := |g.chapters|;
    forall k | 0 <= k < n
      ensures pages'[g.starts[k]..g.starts[k + 1]] == pages[g.starts[k]..g.starts[k + 1]]
    {
    }
    PagesTextExtend(pages, page, g.starts[n]);
    if Splits(g, page) {
      assert pages'[|pages|..] == [page];
      assert PagesText([page]) == "" + page + "\n" by {
        assert [page][..0] == [];
      }
    }
  }

  lemma StepBlocksStartAtHeadings(pages: seq<string>, g: Grouping, page: string)
    requires WellGrouped(pages, g)
    ensures BlocksInOrder(pages + [page], GroupStep(g, page, |pages|))
    ensures BlocksStartAtHeadings(pages + [page], GroupStep(g, page, |pages|))
  {
    StepBlocksInOrder(pages, g, page);
    var n := |g.chapters|;
    assert forall k | 0 < k <= n :: (pages + [page])[g.starts[k]] == pages[g.starts[k]];
  }

  lemma StepSplitsAreMaximal(pages: seq<string>, g: Grouping, page: string)
    requires WellGrouped(pages, g)
    ensures BlocksInOrder(pages + [page], GroupStep(g, page, |pages|))
    ensures SplitsAreMaximal(pages + [page], GroupStep(g, page, |pages|))
  {
    StepBlocksInOrder(pages, g, page);
    var pages' := pages + [page];
    var g' := GroupStep(g, page, |pages|);
    forall k, p | 0 <= k <= |g'.chapters| && g'.starts[k] < p < BlockEnd(g'.starts, k, |pages'|) && p < |pages'|
      ensures HasHeading(pages'[p]) ==> IsBlank(PagesText(pages'[g'.starts[k]..p]))
    {
      if p < |pages| {
        MaximalBefore(pages, g, page, k, p);
      } else {
        MaximalAtNewPage(pages, g, page);
      }
    }
  }

  /** A heading page already read keeps its reason for not splitting. */
  lemma MaximalBefore(pages: seq<string>, g: Grouping, page: string, k: nat, p: nat)
    requires WellGrouped(pages, g)
    requires BlocksInOrder(pages + [page], GroupStep(g, page, |pages|))
    requires var g' := GroupStep(g, page, |pages|);
      k <= |g'.chapters| && g'.starts[k] < p < BlockEnd(g'.starts, k, |pages| + 1) && p < |pages|
    ensures var g' := GroupStep(g, page, |pages|);
      HasHeading((pages + [page])[p]) ==> IsBlank(PagesText((pages + [page])[g'.starts[k]..p]))
  {
    var g' := GroupStep(g, page, |pages|);
    var n := |g.chapters|;
    if Splits(g, page) {
      assert g'.starts == g.starts + [|pages|];
    } else {
      assert g'.starts == g.starts;
    }
    assert k <= n;
    assert g'.starts[k] == g.starts[k];
    assert p < BlockEnd(g.starts, k, |pages|);
    assert (pages + [page])[p] == pages[p];
    assert (pages + [page])[g.starts[k]..p] == pages[g.starts[k]..p];
  }

  /** The page just read either split the chapter or found the current
      content blank. */
  lemma MaximalAtNewPage(pages: seq<string>, g: Grouping, page: string)
    requires WellGrouped(pages, g)
    requires BlocksInOrder(pages + [page], GroupStep(g, page, |pages|))
    ensures var g' := GroupStep(g, page, |pages|);
      forall k | 0 <= k <= |g'.chapters| && g'.starts[k] < |pages| < BlockEnd(g'.starts, k, |pages| + 1) ::
        HasHeading(page) ==> IsBlank(PagesText((pages + [page])[g'.starts[k]..|pages|]))
  {
    var n := |g.chapters|;
    if !Splits(g, page) {
      assert (pages + [page])[g.starts[n]..|pages|] == pages[g.starts[n]..];
    }
  }

  /** The loop keeps its invariant over every page. */
  lemma {:induction false} GroupPagesWellGrouped(pages: seq<string>)
    ensures WellGrouped(pages, GroupPages(pages))
    decreases |pages|
  {
    if pages == [] {
      assert PagesText(pages[0..]) == "";
    } else {
      var init := pages[..|pages| - 1];
      var page := pages[|pages| - 1];
      GroupPagesWellGrouped(init);
      assert init + [page] == pages;
      var g := GroupPages(init);
      assert GroupPages(pages) == GroupStep(g, page, |init|);
      StepChaptersAreBlocks(init, g, page);
      StepBlocksStartAtHeadings(init, g, page);
      StepSplitsAreMaximal(init, g, page);
    }
  }

  /** All chapters' content, concatenated in order. */
  function AllContent(chapters: seq<Chapter>): string {
    if chapters == [] then "" else AllContent(chapters[..|chapters| - 1]) + chapters[|chapters| - 1].content
  }

  /** The closed chapters hold the text of the pages before the current
      chapter, in order. */
  lemma {:induction false} ClosedChaptersText(pages: seq<string>, g: Grouping, k: nat)
    requires BlocksInOrder(pages, g) && ChaptersAreBlocks(pages, g)
    requires k <= |g.chapters|
    ensures AllContent(g.chapters[..k]) == PagesText(pages[..g.starts[k]])
  {
    if k == 0 {
      assert pages[..0] == [];
    } else {
      ClosedChaptersText(pages, g, k - 1);
      assert g.chapters[..k][..k - 1] == g.chapters[..k - 1];
      assert pages[..g.starts[k - 1]] + pages[g.starts[k - 1]..g.starts[k]] == pages[..g.starts[k]];
      PagesTextAppend(pages[..g.starts[k - 1]], pages[g.starts[k - 1]..g.starts[k]]);
    }
  }

  /** The part of the loop invariant that ties chapters to blocks of pages. */
  lemma GroupPagesBlocks(pages: seq<string>)
    ensures BlocksInOrder(pages, GroupPages(pages)) && ChaptersAreBlocks(pages, GroupPages(pages))
  {
    GroupPagesWellGrouped(pages);
  }

  /** The pages' text is the closed chapters' content followed by the current
      content. */
  lemma GroupPagesCoverage(pages: seq<string>)
    ensures var g := GroupPages(pages);
      AllContent(g.chapters) + g.content == PagesText(pages)
  {
    var g := GroupPages(pages);
    var n := |g.chapters|;
    var s: nat :| s <= |pages| && AllContent(g.chapters) == PagesText(pages[..s]) && g.content == PagesText(pages[s..]) by {
      GroupPagesBlocks(pages);
      ClosedChaptersText(pages, g, n);
      assert g.chapters[..n] == g.chapters;
    }
    var before, after := pages[..s], pages[s..];
    assert before + after == pages;
    PagesTextAppend(before, after);
  }

  /** After the loop, chapter k is titled "Chapter k+1" and has non-blank
      content, the current chapter's number follows the last one, and while
      no chapter was closed the current content is all the pages' text. */
  lemma GroupPagesChapters(pages: seq<string>)
    ensures var g := GroupPages(pages);
      var n := |g.chapters|;
      g.chapterNum == n + 1 &&
      (forall k | 0 <= k < n :: g.chapters[k].title == ChapterTitle(k + 1)) &&
      (forall k | 0 <= k < n :: !IsBlank(g.chapters[k].content)) &&
      (n == 0 ==> g.content == PagesText(pages))
  {
    var g := GroupPages(pages);
    GroupPagesWellGrouped(pages);
    if g.chapters == [] {
      assert g.starts[0] == 0;
      assert pages[0..] == pages;
    }
  }

  /** A blank text has only blank prefixes and suffixes. */
  lemma BlankParts(a: string, b: string)
    requires !IsBlank(a)
    ensures !IsBlank(a + b) && !IsBlank(b + a)
  {
    var i :| 0 <= i < |a| && !IsSpace(a[i]);
    assert (a + b)[i] == a[i];
    assert (b + a)[|b| + i] == a[i];
  }

  /** The result is never empty. Either it is the single "Full Book" entry
      holding the whole pages' text, or its titles are "Chapter 1" to
      "Chapter n" in order and every entry has non-blank content. */
  lemma ExtractedChaptersShape(pages: seq<string>, failed: bool)
    ensures var r := ExtractedChapters(pages, failed);
      |r| >= 1 &&
      (r == [Chapter(FullBookTitle, PagesText(pages))] ||
       forall k | 0 <= k < |r| :: r[k].title == ChapterTitle(k + 1) && !IsBlank(r[k].content))
  {
    var g := GroupPages(pages);
    var n := |g.chapters|;
    var r := ExtractedChapters(pages, failed);
    GroupPagesChapters(pages);
    if g.chapters == [] && (failed || IsBlank(g.content)) {
      assert r == [Chapter(FullBookTitle, PagesText(pages))];
    } else {
      if !failed && !IsBlank(g.content) {
        var last := Chapter(ChapterTitle(n + 1), g.content);
        assert r == g.chapters + [last];
        forall k | 0 <= k < |r| ensures r[k].title == ChapterTitle(k + 1) && !IsBlank(r[k].content) {
          if k < n {
            assert r[k] == g.chapters[k];
          } else {
            assert r[k] == last;
          }
        }
      } else {
        assert r == g.chapters;
      }
    }
  }

  /** No two entries of the result have the same title. */
  lemma ExtractedTitlesDistinct(pages: seq<string>, failed: bool)
    ensures var r := ExtractedChapters(pages, failed);
      forall k, l | 0 <= k < l < |r| :: r[k].title != r[l].title
  {
    var r := ExtractedChapters(pages, failed);
    ExtractedChaptersShape(pages, failed);
    forall k, l | 0 <= k < l < |r| ensures r[k].title != r[l].title {
      ChapterTitleInjective(k + 1, l + 1);
    }
  }

  /** Without an extraction error, the "Full Book" entry is returned exactly
      when the pages' whole text is blank. */
  lemma FullBookWhenBlank(pages: seq<string>)
    ensures var r := ExtractedChapters(pages, false);
      r[0].title == FullBookTitle <==> IsBlank(PagesText(pages))
  {
    var g := GroupPages(pages);
    var r := ExtractedChapters(pages, false);
    GroupPagesChapters(pages);
    GroupPagesCoverage(pages);
    ChapterTitleInjective(1, 1);
    if g.chapters != [] {
      var n := |g.chapters|;
      assert r[0] == g.chapters[0];
      assert g.chapters == g.chapters[..n - 1] + [g.chapters[n - 1]];
      assert AllContent(g.chapters) == AllContent(g.chapters[..n - 1]) + g.chapters[n - 1].content;
      BlankParts(g.chapters[n - 1].content, AllContent(g.chapters[..n - 1]));
      BlankParts(AllContent(g.chapters), g.content);
    } else if IsBlank(g.content) {
      assert r == [Chapter(FullBookTitle, g.content)];
    } else {
      assert r == [Chapter(ChapterTitle(1), g.content)];
    }
  }

  /** The chapters' contents, concatenated, are a prefix of the pages' text;
      without an extraction error, what is left over is blank. Nothing is
      reordered, and only a blank tail (or, after an error, the unfinished
      chapter) is dropped. */
  lemma ExtractedChaptersCoverage(pages: seq<string>, failed: bool)
    ensures var r := ExtractedChapters(pages, failed);
      AllContent(r) <= PagesText(pages) &&
      (!failed ==> IsBlank(PagesText(pages)[|AllContent(r)|..]))
  {
    var g := GroupPages(pages);
    var r := ExtractedChapters(pages, failed);
    GroupPagesChapters(pages);
    GroupPagesCoverage(pages);
    var text := PagesText(pages);
    if g.chapters == [] {
      assert AllContent(g.chapters) == "";
      assert |r| == 1 && r[0].content == g.content;
      assert AllContent(r) == AllContent(r[..0]) + r[0].content;
      assert AllContent(r) == text;
    } else if !failed && !IsBlank(g.content) {
      var last := Chapter(ChapterTitle(g.chapterNum), g.content);
      assert r == g.chapters + [last];
      assert r[..|r| - 1] == g.chapters;
      assert AllContent(r) == text;
    } else {
      assert r == g.chapters;
      assert text[|AllContent(r)|..] == g.content;
    }
  }
}
