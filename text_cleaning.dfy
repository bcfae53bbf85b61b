/** The two pure text transformations of the converter: the cleaning applied
    to a chapter's text before speech synthesis (`clean_text_fast`) and the
    file-name-safe form of a chapter title. */
module TextCleaning {
  import opened TextPrimitives

  /** A character that blank content has none of besides whitespace. */
  lemma BlankHasNo(b: string, c: char)
    requires IsBlank(b) && !IsSpace(c)
    ensures multiset(b)[c] == 0
  {
    assert forall i | 0 <= i < |b| :: b[i] != c;
    assert c !in b;
  }

  /** `re.sub(r'\s+', ' ', s)`: every maximal whitespace run becomes one
      space. Afterwards the only whitespace character is ' ', no two spaces
      are adjacent, and the result starts with whitespace exactly when the
      input does (CollapseSpacesLast gives the other end). */
  function CollapseSpaces(s: string): (r: string)
    ensures forall i | 0 <= i < |r| :: IsSpace(r[i]) ==> r[i] == ' '
    ensures forall i | 0 <= i < |r| - 1 :: !(r[i] == ' ' && r[i + 1] == ' ')
    ensures r == [] <==> s == []
    ensures r != [] ==> (IsSpace(r[0]) <==> IsSpace(s[0]))
    decreases |s|
  {
    if s == [] then ""
    else if IsSpace(s[0]) then
      " " + CollapseSpaces(s[LeadingSpaces(s)..])
    else
      [s[0]] + CollapseSpaces(s[1..])
  }

  /** The other end: the collapsed text ends with whitespace exactly when the
      input does. With the no-adjacent-spaces clause of CollapseSpaces and
      WordsOfCollapse, this fixes `re.sub(r'\s+', ' ', s)` completely. */
  lemma {:induction false} CollapseSpacesLast(s: string)
    ensures var r := CollapseSpaces(s);
      r != [] ==> (IsSpace(r[|r| - 1]) <==> IsSpace(s[|s| - 1]))
    decreases |s|
  {
    if s == [] {
    } else if IsSpace(s[0]) {
      var n := LeadingSpaces(s);
      if n == |s| {
        assert s[|s| - 1] == s[..n][|s| - 1];
      } else {
        assert s[|s| - 1] == s[n..][|s| - n - 1];
        CollapseSpacesLast(s[n..]);
      }
    } else if |s| > 1 {
      assert s[|s| - 1] == s[1..][|s| - 2];
      CollapseSpacesLast(s[1..]);
    }
  }

  /** Collapsing whitespace keeps every non-whitespace character as often as
      it occurs. */
  lemma {:induction false} CollapseKeepsNonSpace(s: string, c: char)
    requires !IsSpace(c)
    ensures multiset(CollapseSpaces(s))[c] == multiset(s)[c]
    decreases |s|
  {
    if s == [] {
    } else if IsSpace(s[0]) {
      var n := LeadingSpaces(s);
      assert s == s[..n] + s[n..];
      BlankHasNo(s[..n], c);
      CollapseKeepsNonSpace(s[n..], c);
    } else {
      assert s == [s[0]] + s[1..];
      CollapseKeepsNonSpace(s[1..], c);
    }
  }

  /** Collapsing whitespace after a whitespace-free prefix leaves the prefix. */
  lemma {:induction false} CollapseAfterWord(w: string, t: string)
    requires NoSpace(w)
    ensures CollapseSpaces(w + t) == w + CollapseSpaces(t)
  {
    if w == [] {
      assert w + t == t;
    } else {
      assert (w + t)[0] == w[0];
      assert (w + t)[1..] == w[1..] + t;
      CollapseAfterWord(w[1..], t);
    }
  }

  /** Collapsing whitespace does not change the words of a text: `s.split()`
      is the same before and after. */
  lemma {:induction false} WordsOfCollapse(s: string)
    ensures Words(CollapseSpaces(s)) == Words(s)
    decreases |s|
  {
    if s == [] {
    } else if IsSpace(s[0]) {
      var n := LeadingSpaces(s);
      assert s == s[..n] + s[n..];
      WordsSkipBlank(s[..n], s[n..]);
      WordsSkipBlank(" ", CollapseSpaces(s[n..]));
      WordsOfCollapse(s[n..]);
    } else {
      var n := WordLength(s);
      assert s == s[..n] + s[n..];
      CollapseAfterWord(s[..n], s[n..]);
      WordsOfWordThen(s[..n], CollapseSpaces(s[n..]));
      WordsOfCollapse(s[n..]);
    }
  }

  /** Collapsing blank text leaves blank text. */
  lemma CollapseBlank(t: string)
    requires IsBlank(t)
    ensures IsBlank(CollapseSpaces(t))
  {
    if t != [] {
      var n := LeadingSpaces(t);
      assert n == |t|;
      assert t[n..] == [];
    }
  }

  /** The other direction of the split/join round trip: joining the words of
      a text with single spaces gives the text with its whitespace runs
      collapsed and its ends stripped. With WordsOfJoin, this fixes
      `s.split()` completely. */
  lemma {:induction false} JoinOfWords(s: string)
    ensures JoinWords(Words(s)) == Strip(CollapseSpaces(s))
    decreases |s|
  {
    if s == [] {
    } else if IsSpace(s[0]) {
      var n := LeadingSpaces(s);
      assert s == s[..n] + s[n..];
      WordsSkipBlank(s[..n], s[n..]);
      StripSkipsBlank(" ", CollapseSpaces(s[n..]));
      JoinOfWords(s[n..]);
    } else {
      var m := WordLength(s);
      assert s == s[..m] + s[m..];
      JoinOfWords(s[m..]);
      JoinOfWordThen(s[..m], s[m..]);
    }
  }

  /** The inductive step of JoinOfWords for a text that starts with a word. */
  lemma JoinOfWordThen(w: string, t: string)
    requires w != [] && NoSpace(w)
    requires t == [] || IsSpace(t[0])
    requires JoinWords(Words(t)) == Strip(CollapseSpaces(t))
    ensures JoinWords(Words(w + t)) == Strip(CollapseSpaces(w + t))
  {
    WordsOfWordThen(w, t);
    CollapseAfterWord(w, t);
    if IsBlank(t) {
      WordsOfBlank(t);
      CollapseBlank(t);
      assert w + CollapseSpaces(t) == [] + w + CollapseSpaces(t);
      StripUnique([], w, CollapseSpaces(t));
    } else {
      var i :| 0 <= i < |t| && !IsSpace(t[i]);
      WordsNonEmpty(t, i);
      var c := CollapseSpacedWords(t, i);
      JoinBeforeWords(w, Words(t), c);
    }
  }

  /** The join/strip step for a word followed by more words. */
  lemma JoinBeforeWords(w: string, rest: seq<string>, c: string)
    requires w != [] && !IsSpace(w[0])
    requires rest != [] && c != [] && !IsSpace(c[0])
    requires JoinWords(rest) == Strip(" " + c)
    ensures JoinWords([w] + rest) == Strip(w + (" " + c))
  {
    JoinBeforeWordsLeft(w, rest, c);
    StripWordThenSpace(w, c);
  }

  /** The join side of JoinBeforeWords. */
  lemma JoinBeforeWordsLeft(w: string, rest: seq<string>, c: string)
    requires rest != []
    requires JoinWords(rest) == Strip(" " + c)
    ensures JoinWords([w] + rest) == w + " " + Strip(c)
  {
    JoinWordsCons(w, rest);
    StripSkipsBlank(" ", c);
  }

  /** A text that starts with whitespace and has a non-whitespace character
      collapses to one space followed by text that starts with
      non-whitespace. */
  lemma CollapseSpacedWords(t: string, i: nat) returns (c: string)
    requires i < |t| && IsSpace(t[0]) && !IsSpace(t[i])
    ensures CollapseSpaces(t) == " " + c
    ensures c != [] && !IsSpace(c[0])
  {
    var k := LeadingSpaces(t);
    c := CollapseSpaces(t[k..]);
  }

  /** The characters `clean_text_fast` keeps: `[\w\s.,!?\-']`. */
  predicate IsCleanChar(c: char) {
    IsWordChar(c) || IsSpace(c) || c == '.' || c == ',' || c == '!' || c == '?' || c == '-' || c == '\''
  }

  /** A character the cleaned text may hold: a word character, a space, or
      one of . , ! ? - '. */
  predicate IsCleanOutputChar(c: char) {
    IsWordChar(c) || c == ' ' || c == '.' || c == ',' || c == '!' || c == '?' || c == '-' || c == '\''
  }

  /** Stripping removes whitespace only: every other character keeps its count. */
  lemma StripKeepsNonSpace(s: string, c: char)
    requires !IsSpace(c)
    ensures multiset(Strip(s))[c] == multiset(s)[c]
  {
    var i := LeadingSpaces(s);
    BlankPaddingCount(s, i, i + |Strip(s)|, c);
  }

  /** Cutting blank text off both ends of a string keeps every non-whitespace
      character. */
  lemma BlankPaddingCount(s: string, i: nat, j: nat, c: char)
    requires i <= j <= |s| && IsBlank(s[..i]) && IsBlank(s[j..]) && !IsSpace(c)
    ensures multiset(s[i..j])[c] == multiset(s)[c]
  {
    assert s == s[..i] + s[i..j] + s[j..];
    BlankHasNo(s[..i], c);
    BlankHasNo(s[j..], c);
  }

  /** `clean_text_fast`: collapse whitespace runs to one space, delete the
      characters outside `[\w\s.,!?\-']`, strip both ends. The result has no
      whitespace at either end, its only whitespace character is ' ', every
      character is a word character, a space or one of . , ! ? - ', and it is
      the collapsed input with characters deleted. */
  function CleanText(s: string): (r: string)
    ensures r == [] || (!IsSpace(r[0]) && !IsSpace(r[|r| - 1]))
    ensures forall i | 0 <= i < |r| :: IsSpace(r[i]) ==> r[i] == ' '
    ensures forall i | 0 <= i < |r| :: IsCleanOutputChar(r[i])
    ensures IsSubsequence(r, CollapseSpaces(s))
  {
    var collapsed := CollapseSpaces(s);
    var kept := KeepOnly(collapsed, IsCleanChar);
    KeepOnlyInherits(collapsed, IsCleanChar, c => IsSpace(c) ==> c == ' ');
    StripInherits(kept, c => IsCleanChar(c) && (IsSpace(c) ==> c == ' '));
    var i := LeadingSpaces(kept);
    var r := Strip(kept);
    SliceIsSubsequence(kept, i, i + |r|);
    SubsequenceTransitive(r, kept, collapsed);
    r
  }

  /** Cleaning deletes exactly the disallowed characters and some whitespace:
      every allowed non-whitespace character of the input survives as often
      as it occurs, and no disallowed character survives. */
  lemma CleanTextCount(s: string, c: char)
    requires !IsSpace(c)
    ensures multiset(CleanText(s))[c] == if IsCleanChar(c) then multiset(s)[c] else 0
  {
    var collapsed := CollapseSpaces(s);
    var kept := KeepOnly(collapsed, IsCleanChar);
    StripKeepsNonSpace(kept, c);
    KeepOnlyCount(collapsed, IsCleanChar, c);
    CollapseKeepsNonSpace(s, c);
  }

  /** Deleting characters from a text, none of them whitespace, gives the same
      words whether or not the whitespace runs were collapsed first; `x` is
      any text in front. */
  lemma {:induction false} WordsKeepCollapse(x: string, s: string, keep: char -> bool)
    requires forall c :: IsSpace(c) ==> keep(c)
    ensures Words(x + KeepOnly(CollapseSpaces(s), keep)) == Words(x + KeepOnly(s, keep))
    decreases |s|
  {
    if s == [] {
    } else if IsSpace(s[0]) {
      var n := LeadingSpaces(s);
      var b, t := s[..n], s[n..];
      assert s == b + t;
      KeepBlankPrefix(b, t, keep);
      KeepBlankPrefix(" ", CollapseSpaces(t), keep);
      WordsKeepCollapse(x + " ", t, keep);
      WordsSpaceSwap(x, b, KeepOnly(CollapseSpaces(t), keep), KeepOnly(t, keep));
    } else {
      var k := KeepOnly([s[0]], keep);
      assert s == [s[0]] + s[1..];
      KeepOnlyAppend([s[0]], s[1..], keep);
      KeepOnlyAppend([s[0]], CollapseSpaces(s[1..]), keep);
      WordsKeepCollapse(x + k, s[1..], keep);
      WordsRegroup(x, k, KeepOnly(CollapseSpaces(s[1..]), keep), KeepOnly(s[1..], keep));
    }
  }

  /** Deletion that keeps all whitespace keeps blank text in front. */
  lemma KeepBlankPrefix(b: string, t: string, keep: char -> bool)
    requires IsBlank(b) && forall c :: IsSpace(c) ==> keep(c)
    ensures KeepOnly(b + t, keep) == b + KeepOnly(t, keep)
  {
    KeepOnlyAppend(b, t, keep);
    KeepOnlyAllKept(b, keep);
  }

  /** The space step of WordsKeepCollapse. */
  lemma WordsSpaceSwap(x: string, b: string, k1: string, k2: string)
    requires IsBlank(b) && b != []
    requires Words((x + " ") + k1) == Words((x + " ") + k2)
    ensures Words(x + (" " + k1)) == Words(x + (b + k2))
  {
    assert x + (" " + k1) == (x + " ") + k1;
    assert x + (b + k2) == x + b + k2;
    assert (x + " ") + k2 == x + " " + k2;
    WordsBlankSwap(x, " ", b, k2);
  }

  /** The non-whitespace step of WordsKeepCollapse. */
  lemma WordsRegroup(x: string, k: string, k1: string, k2: string)
    requires Words((x + k) + k1) == Words((x + k) + k2)
    ensures Words(x + (k + k1)) == Words(x + (k + k2))
  {
    assert x + (k + k1) == (x + k) + k1;
    assert x + (k + k2) == (x + k) + k2;
  }

  /** Which spaces survive cleaning: the words of the cleaned text are the
      words of the input after deleting the disallowed characters, so
      cleaning joins or splits no words. */
  lemma WordsOfClean(s: string)
    ensures Words(CleanText(s)) == Words(KeepOnly(s, IsCleanChar))
  {
    var kept := KeepOnly(CollapseSpaces(s), IsCleanChar);
    WordsOfStrip(kept);
    WordsKeepCollapse([], s, IsCleanChar);
    assert [] + kept == kept;
    assert [] + KeepOnly(s, IsCleanChar) == KeepOnly(s, IsCleanChar);
  }

  /** The characters the safe title keeps: `[\w\s-]`. */
  predicate IsTitleChar(c: char) {
    IsWordChar(c) || IsSpace(c) || c == '-'
  }

  /** The file-name form of a chapter title: delete the characters outside
      `[\w\s-]`, strip, and replace each space by '_'. The result contains no
      space, no whitespace at either end, and only word characters ('_'
      included), '-' and whitespace other than ' '. */
  function SafeTitle(title: string): (r: string)
    ensures |r| <= |title|
    ensures forall i | 0 <= i < |r| :: r[i] != ' '
    ensures forall i | 0 <= i < |r| :: IsWordChar(r[i]) || r[i] == '-' || (IsSpace(r[i]) && r[i] != ' ')
    ensures r == [] || (!IsSpace(r[0]) && !IsSpace(r[|r| - 1]))
  {
    var kept := KeepOnly(title, IsTitleChar);
    KeepOnlyShorter(title, IsTitleChar);
    StripInherits(kept, IsTitleChar);
    ReplaceChar(Strip(kept), ' ', '_')
  }

  /** The safe title deletes exactly the characters outside `[\w\s-]` and
      some whitespace: every other kept character of the title survives as
      often as it occurs ('_' also stands for the replaced spaces), and no
      deleted character survives. */
  lemma SafeTitleCount(title: string, c: char)
    requires !IsSpace(c) && c != '_'
    ensures multiset(SafeTitle(title))[c] == if IsTitleChar(c) then multiset(title)[c] else 0
  {
    var kept := KeepOnly(title, IsTitleChar);
    ReplaceCharCount(Strip(kept), ' ', '_', c);
    StripKeepsNonSpace(kept, c);
    KeepOnlyCount(title, IsTitleChar, c);
  }

  /** Deleting the characters outside a class changes nothing when every
      character is already in it. */
  lemma {:induction false} KeepOnlyAllKept(s: string, keep: char -> bool)
    requires forall i | 0 <= i < |s| :: keep(s[i])
    ensures KeepOnly(s, keep) == s
  {
    if s != [] {
      KeepOnlyAllKept(s[1..], keep);
      assert [s[0]] + s[1..] == s;
    }
  }

  /** Stripping a string without whitespace at its ends changes nothing. */
  lemma StripUnpadded(s: string)
    requires s == [] || (!IsSpace(s[0]) && !IsSpace(s[|s| - 1]))
    ensures Strip(s) == s
  {
    if s != [] {
      var r := Strip(s);
      assert LeadingSpaces(s) == 0;
    }
  }

  /** A title made of kept characters and without whitespace at its ends only
      has its spaces replaced. */
  lemma SafeTitleOfUnpadded(title: string)
    requires forall i | 0 <= i < |title| :: IsTitleChar(title[i])
    requires title == [] || (!IsSpace(title[0]) && !IsSpace(title[|title| - 1]))
    ensures SafeTitle(title) == ReplaceChar(title, ' ', '_')
  {
    KeepOnlyAllKept(title, IsTitleChar);
    StripUnpadded(title);
  }

  /** Two words of word characters separated by one space become the two
      words joined by '_', as "Chapter 3" becomes "Chapter_3". */
  lemma SafeTitleOfTwoWords(a: string, b: string)
    requires a != [] && b != []
    requires forall i | 0 <= i < |a| :: IsWordChar(a[i])
    requires forall i | 0 <= i < |b| :: IsWordChar(b[i])
    ensures SafeTitle(a + " " + b) == a + "_" + b
  {
    TitleCharsOfTwoWords(a, b);
    SafeTitleOfUnpadded(a + " " + b);
    ReplaceSeparator(a, b);
  }

  /** Replacing spaces in two space-free words around one space replaces
      just that space. */
  lemma ReplaceSeparator(a: string, b: string)
    requires forall i | 0 <= i < |a| :: a[i] != ' '
    requires forall i | 0 <= i < |b| :: b[i] != ' '
    ensures ReplaceChar(a + " " + b, ' ', '_') == a + "_" + b
  {
    var t := a + " " + b;
    var r := ReplaceChar(t, ' ', '_');
    var u := a + "_" + b;
    forall i | 0 <= i < |r| ensures r[i] == u[i] {
      if i < |a| {
        assert t[i] == a[i] && u[i] == a[i];
      } else if i == |a| {
        assert t[i] == ' ' && u[i] == '_';
      } else {
        assert t[i] == b[i - |a| - 1] && u[i] == b[i - |a| - 1];
      }
    }
  }

  lemma TitleCharsOfTwoWords(a: string, b: string)
    requires a != [] && b != []
    requires forall i | 0 <= i < |a| :: IsWordChar(a[i])
    requires forall i | 0 <= i < |b| :: IsWordChar(b[i])
    ensures var t := a + " " + b;
      (forall i | 0 <= i < |t| :: IsTitleChar(t[i])) && !IsSpace(t[0]) && !IsSpace(t[|t| - 1])
  {
    var t := a + " " + b;
    forall i | 0 <= i < |t| ensures IsTitleChar(t[i]) {
      if i < |a| {
        assert t[i] == a[i];
      } else if i > |a| {
        assert t[i] == b[i - |a| - 1];
      }
    }
    assert t[0] == a[0] && t[|t| - 1] == b[|b| - 1];
  }

  /** Applying the safe-title transformation twice gives the same name as
      applying it once. */
  lemma SafeTitleIdempotent(title: string)
    ensures SafeTitle(SafeTitle(title)) == SafeTitle(title)
  {
    var u := SafeTitle(title);
    SafeTitleOfUnpadded(u);
    assert ReplaceChar(u, ' ', '_') == u;
  }
}
