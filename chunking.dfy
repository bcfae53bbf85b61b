/** The word chunker that cuts a cleaned chapter text into pieces small enough
    for one speech-synthesis request (`split_text_fast`). A text that fits is
    returned whole; a longer one is split into words, which are packed
    greedily into chunks under a budget of `len(word) + 1` per word. */
module Chunking {
  import opened TextPrimitives

  /** The budget one word takes: its length plus one separator. */
  function WordCost(w: string): nat {
    |w| + 1
  }

  /** The budget a list of words takes. */
  function Cost(ws: seq<string>): nat {
    if ws == [] then 0 else WordCost(ws[0]) + Cost(ws[1..])
  }

  lemma {:induction false} CostAppend(ws: seq<string>, w: string)
    ensures Cost(ws + [w]) == Cost(ws) + WordCost(w)
  {
    if ws != [] {
      assert (ws + [w])[1..] == ws[1..] + [w];
      CostAppend(ws[1..], w);
    }
  }

  /** Joined with single spaces, a non-empty list of words is one character
      shorter than its budget. */
  lemma {:induction false} JoinLength(ws: seq<string>)
    requires ws != []
    ensures |JoinWords(ws)| == Cost(ws) - 1
  {
    if |ws| > 1 {
      JoinLength(ws[1..]);
    }
  }

  /** Joining a non-empty list of non-empty words gives a non-empty text. */
  lemma JoinNonEmpty(ws: seq<string>)
    requires ws != [] && ValidWords(ws)
    ensures JoinWords(ws) != ""
  {
    JoinLength(ws);
    assert Cost(ws) >= WordCost(ws[0]) >= 2;
  }

  /** The loop state of the chunker: the word lists already closed as chunks,
      the word list of the chunk being filled, and its running budget. */
  datatype Packing = Packing(groups: seq<seq<string>>, current: seq<string>, length: nat)

  /** One iteration: a word that would push the running budget over
      `maxChars` closes the current chunk (even when it is empty) and starts
      a new one; otherwise it joins the current chunk. */
  function PackStep(p: Packing, word: string, maxChars: int): Packing {
    var wordLength := WordCost(word);
    if p.length + wordLength > maxChars then
      Packing(p.groups + [p.current], [word], wordLength)
    else
      Packing(p.groups, p.current + [word], p.length + wordLength)
  }

  /** The loop run over `words`, from the empty state. */
  function Pack(words: seq<string>, maxChars: int): Packing
    decreases |words|
  {
    if words == [] then Packing([], [], 0)
    else PackStep(Pack(words[..|words| - 1], maxChars), words[|words| - 1], maxChars)
  }

  /** The chunks' word lists once the loop is over: a non-empty current chunk
      is closed too. */
  function Closed(p: Packing): seq<seq<string>> {
    if p.current != [] then p.groups + [p.current] else p.groups
  }

  /** The word lists of the chunks of a long text. */
  function ChunkGroups(words: seq<string>, maxChars: int): seq<seq<string>> {
    Closed(Pack(words, maxChars))
  }

  /** Each word list joined with single spaces. */
  function JoinAll(groups: seq<seq<string>>): (r: seq<string>)
    ensures |r| == |groups|
  {
    seq(|groups|, k requires 0 <= k < |groups| => JoinWords(groups[k]))
  }

  /** What `split_text_fast(text, maxChars)` returns. */
  function SplitChunks(text: string, maxChars: int): seq<string> {
    if |text| <= maxChars then [text]
    else JoinAll(ChunkGroups(Words(text), maxChars))
  }

  /** `split_text_fast`: the loop over the words of `text`. */
  method SplitText(text: string, maxChars: int) returns (chunks: seq<string>)
    ensures chunks == SplitChunks(text, maxChars)
    ensures |text| <= maxChars ==> chunks == [text]
  {
    if |text| <= maxChars {
      return [text];
    }
    chunks := [];
    var words := Words(text);
    var current: seq<string> := [];
    var currentLength: nat := 0;
    ghost var groups: seq<seq<string>> := [];
    for i := 0 to |words|
      invariant Pack(words[..i], maxChars) == Packing(groups, current, currentLength)
      invariant chunks == JoinAll(groups)
    {
      assert words[..i + 1][..i] == words[..i];
      var word := words[i];
      var wordLength := |word| + 1;
      if currentLength + wordLength > maxChars {
        chunks := chunks + [JoinWords(current)];
        groups := groups + [current];
        current := [word];
        currentLength := wordLength;
      } else {
        current := current + [word];
        currentLength := currentLength + wordLength;
      }
    }
    if current != [] {
      chunks := chunks + [JoinWords(current)];
      groups := groups + [current];
    }
    assert words[..|words|] == words;
  }

  /** What the chunker's loop keeps true of its state after the words
      `words`, read on the chunk word lists `Closed(p)`: the chunks hold
      exactly `words` in order; every chunk but the first is non-empty; the
      first is empty exactly when the first word alone is over budget; a chunk
      of two or more words is within budget; every chunk was closed only
      because the first word of the next one did not fit; and the running
      budget is the budget of the current chunk. */
  ghost predicate WellPacked(words: seq<string>, maxChars: int, p: Packing) {
    var g := Closed(p);
    p.length == Cost(p.current) &&
    (words == [] ==> p == Packing([], [], 0)) &&
    (words != [] ==> p.current != []) &&
    Flatten(g) == words &&
    (forall k | 0 < k < |g| :: g[k] != []) &&
    (words != [] ==> (g[0] == [] <==> WordCost(words[0]) > maxChars)) &&
    (forall k | 0 <= k < |g| :: |g[k]| >= 2 ==> Cost(g[k]) <= maxChars) &&
    (forall k | 0 <= k < |g| - 1 :: Cost(g[k]) + WordCost(g[k + 1][0]) > maxChars)
  }

  lemma PackStepWellPacked(words: seq<string>, maxChars: int, p: Packing, w: string)
    requires WellPacked(words, maxChars, p)
    ensures WellPacked(words + [w], maxChars, PackStep(p, w, maxChars))
  {
    if words == [] {
      FirstWordWellPacked(maxChars, w);
      assert words + [w] == [w];
    } else if p.length + WordCost(w) > maxChars {
      OverflowWellPacked(words, maxChars, p, w);
    } else {
      FitWellPacked(words, maxChars, p, w);
    }
  }

  lemma FirstWordWellPacked(maxChars: int, w: string)
    ensures WellPacked([w], maxChars, PackStep(Packing([], [], 0), w, maxChars))
  {
    var g' := Closed(PackStep(Packing([], [], 0), w, maxChars));
    if WordCost(w) > maxChars {
      assert g' == [[], [w]];
      assert Flatten(g') == [] + Flatten([[w]]);
    } else {
      var empty: seq<string> := [];
      assert empty + [w] == [w];
      assert g' == [[w]];
    }
    assert Flatten(g') == [w];
  }

  lemma OverflowWellPacked(words: seq<string>, maxChars: int, p: Packing, w: string)
    requires WellPacked(words, maxChars, p)
    requires words != [] && p.length + WordCost(w) > maxChars
    ensures WellPacked(words + [w], maxChars, PackStep(p, w, maxChars))
  {
    var g, g' := Closed(p), Closed(PackStep(p, w, maxChars));
    assert (words + [w])[0] == words[0];
    assert g' == g + [[w]];
    FlattenAppend(g, [[w]]);
  }

  lemma FitWellPacked(words: seq<string>, maxChars: int, p: Packing, w: string)
    requires WellPacked(words, maxChars, p)
    requires words != [] && p.length + WordCost(w) <= maxChars
    ensures WellPacked(words + [w], maxChars, PackStep(p, w, maxChars))
  {
    var g, g' := Closed(p), Closed(PackStep(p, w, maxChars));
    assert (words + [w])[0] == words[0];
    CostAppend(p.current, w);
    assert g == p.groups + [p.current];
    assert g' == p.groups + [p.current + [w]];
    FlattenAppend(p.groups, [p.current]);
    FlattenAppend(p.groups, [p.current + [w]]);
    assert [p.current][1..] == [] && [p.current + [w]][1..] == [];
    assert Flatten(g') == Flatten(g) + [w];
    assert |g'| == |g|;
    assert forall k | 0 <= k < |g| - 1 :: g'[k] == g[k];
    assert g'[|g| - 1][0] == g[|g| - 1][0];
  }

  lemma {:induction false} PackWellPacked(words: seq<string>, maxChars: int)
    ensures WellPacked(words, maxChars, Pack(words, maxChars))
    decreases |words|
  {
    if words != [] {
      var init := words[..|words| - 1];
      PackWellPacked(init, maxChars);
      PackStepWellPacked(init, maxChars, Pack(init, maxChars), words[|words| - 1]);
      assert init + [words[|words| - 1]] == words;
    }
  }

  /** Every part of a flattened list of valid words is a list of valid words. */
  lemma {:induction false} FlattenValidWords(g: seq<seq<string>>)
    requires ValidWords(Flatten(g))
    ensures forall k | 0 <= k < |g| :: ValidWords(g[k])
  {
    if g != [] {
      assert Flatten(g) == g[0] + Flatten(g[1..]);
      assert forall j | 0 <= j < |g[0]| :: Flatten(g)[j] == g[0][j];
      assert forall j | 0 <= j < |Flatten(g[1..])| :: Flatten(g)[|g[0]| + j] == Flatten(g[1..])[j];
      FlattenValidWords(g[1..]);
      assert forall k | 1 <= k < |g| :: g[k] == g[1..][k - 1];
    }
  }

  /** The words of all chunks, chunk by chunk. */
  function ChunkWords(chunks: seq<string>): seq<seq<string>> {
    seq(|chunks|, k requires 0 <= k < |chunks| => Words(chunks[k]))
  }

  /** In the long-text case, splitting each chunk into words gives back the
      chunk's word list, so the words of all chunks, taken in order, are the
      words of the text: nothing dropped, duplicated or reordered. */
  lemma SplitKeepsWords(text: string, maxChars: int)
    requires |text| > maxChars
    ensures var chunks := SplitChunks(text, maxChars);
      ChunkWords(chunks) == ChunkGroups(Words(text), maxChars) &&
      Flatten(ChunkWords(chunks)) == Words(text)
  {
    var words := Words(text);
    var g := ChunkGroups(words, maxChars);
    var chunks := SplitChunks(text, maxChars);
    assert chunks == JoinAll(g);
    ChunkGroupsFlatten(words, maxChars);
    FlattenValidWords(g);
    forall k | 0 <= k < |g| ensures Words(chunks[k]) == g[k] {
      WordsOfJoin(g[k]);
    }
    assert ChunkWords(chunks) == g;
  }

  /** The chunks' word lists, taken in order, are the words packed. */
  lemma ChunkGroupsFlatten(words: seq<string>, maxChars: int)
    ensures Flatten(ChunkGroups(words, maxChars)) == words
  {
    PackWellPacked(words, maxChars);
  }

  /** In the long-text case, a chunk of two or more words stays within the
      budget, so its length is at most `maxChars - 1`; a non-empty chunk of
      length `maxChars` or more holds exactly one word. */
  lemma SplitRespectsBudget(text: string, maxChars: int)
    requires |text| > maxChars
    ensures var chunks := SplitChunks(text, maxChars);
      forall k | 0 <= k < |chunks| ::
        (|Words(chunks[k])| >= 2 ==> Cost(Words(chunks[k])) <= maxChars && |chunks[k]| <= maxChars - 1) &&
        (chunks[k] != "" && |chunks[k]| >= maxChars ==> |Words(chunks[k])| == 1)
  {
    var words := Words(text);
    var g := ChunkGroups(words, maxChars);
    var chunks := SplitChunks(text, maxChars);
    SplitKeepsWords(text, maxChars);
    PackWellPacked(words, maxChars);
    forall k | 0 <= k < |chunks|
      ensures |g[k]| >= 2 ==> Cost(g[k]) <= maxChars && |chunks[k]| <= maxChars - 1
      ensures chunks[k] != "" && |chunks[k]| >= maxChars ==> |g[k]| == 1
    {
      assert Words(chunks[k]) == g[k];
      if g[k] != [] {
        JoinLength(g[k]);
      }
    }
  }

  /** In the long-text case only the first chunk can be empty, and it is empty
      exactly when the first word alone is over budget; a text with no words
      (whitespace only) gives no chunks, and any other text gives some. */
  lemma SplitEmptyChunks(text: string, maxChars: int)
    requires |text| > maxChars
    ensures var chunks := SplitChunks(text, maxChars);
      (chunks == [] <==> Words(text) == []) &&
      (forall k | 0 < k < |chunks| :: chunks[k] != "") &&
      (chunks != [] ==> (chunks[0] == "" <==> WordCost(Words(text)[0]) > maxChars))
  {
    var words := Words(text);
    var g := ChunkGroups(words, maxChars);
    var chunks := SplitChunks(text, maxChars);
    PackWellPacked(words, maxChars);
    FlattenValidWords(g);
    forall k | 0 <= k < |g| && g[k] != [] ensures chunks[k] != "" {
      JoinNonEmpty(g[k]);
    }
    if words != [] {
      assert g != [];
    }
  }

  /** In the long-text case the packing is greedy: a chunk was closed only
      because the first word of the next one would have pushed it over the
      budget. */
  lemma SplitIsGreedy(text: string, maxChars: int)
    requires |text| > maxChars
    ensures var cw := ChunkWords(SplitChunks(text, maxChars));
      forall k | 0 < k < |cw| ::
        cw[k] != [] && Cost(cw[k - 1]) + WordCost(cw[k][0]) > maxChars
  {
    SplitKeepsWords(text, maxChars);
    PackWellPacked(Words(text), maxChars);
  }
}
