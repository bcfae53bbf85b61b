/** The Python string and regular-expression primitives the converter's text
    logic is built from: the character classes \s, \w and \d, str.strip,
    str.split, ' '.join, str.replace of one character, and deletion of the
    characters outside a class (re.sub of a negated class with ''). */
module TextPrimitives {

  /** Python's str.isspace(), which is also what `\s`, str.split() and
      str.strip() use for str patterns and arguments. */
  predicate IsSpace(c: char) {
    c == ' ' || ('\t' <= c <= '\r') || ('\U{1c}' <= c <= '\U{1f}') ||
    c == '\U{85}' || c == '\U{a0}' || c == '\U{1680}' ||
    ('\U{2000}' <= c <= '\U{200a}') || c == '\U{2028}' || c == '\U{2029}' ||
    c == '\U{202f}' || c == '\U{205f}' || c == '\U{3000}'
  }

  /** `\d`, restricted to the ASCII digits. */
  predicate IsDigit(c: char) {
    '0' <= c <= '9'
  }

  /** `\w`, restricted to ASCII letters, ASCII digits and the underscore. */
  predicate IsWordChar(c: char) {
    ('a' <= c <= 'z') || ('A' <= c <= 'Z') || IsDigit(c) || c == '_'
  }

  /** `s.strip()` is empty exactly when every character of `s` is whitespace. */
  predicate IsBlank(s: string) {
    forall i | 0 <= i < |s| :: IsSpace(s[i])
  }

  /** A string with no whitespace character at all. */
  predicate NoSpace(s: string) {
    forall i | 0 <= i < |s| :: !IsSpace(s[i])
  }

  /** Number of whitespace characters at the front of `s`. */
  function LeadingSpaces(s: string): (n: nat)
    ensures n <= |s|
    ensures IsBlank(s[..n])
    ensures n < |s| ==> !IsSpace(s[n])
  {
    if s == [] || !IsSpace(s[0]) then 0 else 1 + LeadingSpaces(s[1..])
  }

  /** Number of whitespace characters right before index `j` of `s`. */
  function SpacesBefore(s: string, j: nat): (n: nat)
    requires j <= |s|
    ensures n <= j
    ensures forall k | j - n <= k < j :: IsSpace(s[k])
    ensures n < j ==> !IsSpace(s[j - n - 1])
  {
    if j == 0 || !IsSpace(s[j - 1]) then 0 else 1 + SpacesBefore(s, j - 1)
  }

  /** `s.strip()`: the slice of `s` left after removing leading and trailing
      whitespace. */
  function Strip(s: string): (r: string)
    ensures |r| <= |s|
    ensures var i := LeadingSpaces(s);
      i + |r| <= |s| && r == s[i..i + |r|] && IsBlank(s[..i]) && IsBlank(s[i + |r|..])
    ensures r == [] <==> IsBlank(s)
    ensures r != [] ==> !IsSpace(r[0]) && !IsSpace(r[|r| - 1])
  {
    var i := LeadingSpaces(s);
    if i == |s| then
      assert s[..i] == s;
      []
    else
      var n := SpacesBefore(s, |s|);
      assert n <= |s| - i - 1 by {
        assert !IsSpace(s[i]);
      }
      var r := s[i..|s| - n];
      assert r[0] == s[i] && r[|r| - 1] == s[|s| - n - 1];
      r
  }

  /** Whatever holds of every character of `s` holds of every character of
      `s.strip()`. */
  lemma StripInherits(s: string, p: char -> bool)
    requires forall i | 0 <= i < |s| :: p(s[i])
    ensures forall i | 0 <= i < |Strip(s)| :: p(Strip(s)[i])
  {
    var r := Strip(s);
    var k := LeadingSpaces(s);
    assert forall i | 0 <= i < |r| :: r[i] == s[k + i];
  }

  /** Two blank texts together are blank. */
  lemma BlankConcat(a: string, b: string)
    requires IsBlank(a) && IsBlank(b)
    ensures IsBlank(a + b)
  {
    assert forall k | 0 <= k < |a + b| :: (a + b)[k] == if k < |a| then a[k] else b[k - |a|];
  }

  /** Blank text in front adds its length to the leading whitespace. */
  lemma {:induction false} LeadingSpacesAfterBlank(a: string, y: string)
    requires IsBlank(a)
    ensures LeadingSpaces(a + y) == |a| + LeadingSpaces(y)
    decreases |a|
  {
    if a == [] {
      assert a + y == y;
    } else {
      assert (a + y)[0] == a[0];
      assert (a + y)[1..] == a[1..] + y;
      LeadingSpacesAfterBlank(a[1..], y);
    }
  }

  /** `k` whitespace characters right after a non-whitespace character (or
      the start) are exactly the whitespace before index `j + k`. */
  lemma {:induction false} SpacesBeforeRun(s: string, j: nat, k: nat)
    requires j + k <= |s|
    requires forall t | j <= t < j + k :: IsSpace(s[t])
    requires j == 0 || !IsSpace(s[j - 1])
    ensures SpacesBefore(s, j + k) == k
    decreases k
  {
    if k > 0 {
      SpacesBeforeRun(s, j, k - 1);
    }
  }

  /** `strip()` is determined by its properties: a text made of blank text,
      then a part with non-whitespace at both ends, then blank text, strips
      to that part. */
  lemma StripUnique(a: string, m: string, b: string)
    requires IsBlank(a) && IsBlank(b)
    requires m != [] && !IsSpace(m[0]) && !IsSpace(m[|m| - 1])
    ensures Strip(a + m + b) == m
  {
    var s := a + m + b;
    StripBounds(a, m, b);
    assert s[|a|..|s| - |b|] == m;
  }

  /** Where `strip()` cuts blank text, a part with non-whitespace at both
      ends, and blank text. */
  lemma StripBounds(a: string, m: string, b: string)
    requires IsBlank(a) && IsBlank(b)
    requires m != [] && !IsSpace(m[0]) && !IsSpace(m[|m| - 1])
    ensures LeadingSpaces(a + m + b) == |a|
    ensures SpacesBefore(a + m + b, |a + m + b|) == |b|
  {
    assert a + m + b == a + (m + b);
    assert (m + b)[0] == m[0];
    LeadingSpacesAfterBlank(a, m + b);
    assert (a + m)[|a + m| - 1] == m[|m| - 1];
    SpacesBeforeTail(a + m, b);
  }

  /** Blank text after a non-whitespace character is exactly the trailing
      whitespace. */
  lemma SpacesBeforeTail(x: string, b: string)
    requires x != [] && !IsSpace(x[|x| - 1]) && IsBlank(b)
    ensures SpacesBefore(x + b, |x + b|) == |b|
  {
    var s := x + b;
    assert s[|x| - 1] == x[|x| - 1];
    assert forall t | |x| <= t < |x| + |b| :: s[t] == b[t - |x|];
    SpacesBeforeRun(s, |x|, |b|);
  }

  /** A text that is not blank is its leading whitespace, its stripped form
      and its trailing whitespace. */
  lemma StripSplit(x: string) returns (a: string, c: string)
    requires !IsBlank(x)
    ensures x == a + Strip(x) + c
    ensures IsBlank(a) && IsBlank(c) && |a| == LeadingSpaces(x)
  {
    var i := LeadingSpaces(x);
    var r := Strip(x);
    a, c := x[..i], x[i + |r|..];
    assert x == a + r + c;
  }

  /** Blank text in front does not change what `strip()` returns. */
  lemma StripSkipsBlank(b: string, x: string)
    requires IsBlank(b)
    ensures Strip(b + x) == Strip(x)
  {
    if IsBlank(x) {
      BlankConcat(b, x);
    } else {
      var a, c := StripSplit(x);
      var m := Strip(x);
      assert b + x == b + (a + m + c);
      StripPrepend(b, a, m, c);
    }
  }

  /** StripUnique with further blank text in front. */
  lemma StripPrepend(b: string, a: string, m: string, c: string)
    requires IsBlank(b) && IsBlank(a) && IsBlank(c)
    requires m != [] && !IsSpace(m[0]) && !IsSpace(m[|m| - 1])
    ensures Strip(b + (a + m + c)) == m
  {
    BlankConcat(b, a);
    assert b + (a + m + c) == (b + a) + m + c;
    StripUnique(b + a, m, c);
  }

  /** A text that starts with non-whitespace keeps a prefix that starts with
      non-whitespace when stripped. */
  lemma StripFront(x: string, y: string)
    requires x != [] && !IsSpace(x[0])
    requires y != [] && !IsSpace(y[0])
    ensures Strip(x + y) == x + Strip(y)
  {
    assert !IsBlank(y);
    var a, c := StripSplit(y);
    assert a == [];
    assert y == Strip(y) + c;
    StripAppendWord(x, Strip(y), c);
  }

  /** StripUnique with a prefix that starts with non-whitespace. */
  lemma StripAppendWord(x: string, m: string, c: string)
    requires x != [] && !IsSpace(x[0]) && IsBlank(c)
    requires m != [] && !IsSpace(m[0]) && !IsSpace(m[|m| - 1])
    ensures Strip(x + (m + c)) == x + m
  {
    var xm := x + m;
    assert xm[0] == x[0] && xm[|xm| - 1] == m[|m| - 1];
    assert x + (m + c) == [] + xm + c;
    StripUnique([], xm, c);
  }

  /** Stripping a word, one space and a text that starts with non-whitespace
      strips only that text. */
  lemma StripWordThenSpace(w: string, c: string)
    requires w != [] && !IsSpace(w[0])
    requires c != [] && !IsSpace(c[0])
    ensures Strip(w + (" " + c)) == w + " " + Strip(c)
  {
    StripFront(w + " ", c);
    assert (w + " ") + c == w + (" " + c);
  }

  /** Length of the run of non-whitespace characters at the front of `s`. */
  function WordLength(s: string): (n: nat)
    ensures n <= |s|
    ensures NoSpace(s[..n])
    ensures n < |s| ==> IsSpace(s[n])
    ensures s != [] && !IsSpace(s[0]) ==> n >= 1
  {
    if s == [] || IsSpace(s[0]) then 0 else 1 + WordLength(s[1..])
  }

  /** Every element is a non-empty run of non-whitespace characters, as
      str.split() produces. */
  predicate ValidWords(ws: seq<string>) {
    forall k | 0 <= k < |ws| :: ws[k] != [] && NoSpace(ws[k])
  }

  /** `s.split()` with no separator: the maximal runs of non-whitespace
      characters, in order; whitespace alone yields no words. Every word is
      non-empty and whitespace-free. */
  function Words(s: string): (ws: seq<string>)
    ensures ValidWords(ws)
    decreases |s|
  {
    if s == [] then []
    else if IsSpace(s[0]) then Words(s[1..])
    else
      var n := WordLength(s);
      [s[..n]] + Words(s[n..])
  }

  /** `' '.join(ws)`: the words in order, one space between neighbours. The
      result starts with the first word, and its length is the words' total
      length plus one separator between each pair. */
  function JoinWords(ws: seq<string>): (r: string)
    ensures ws != [] ==> ws[0] <= r
    ensures ws != [] ==> |r| == |Flatten(ws)| + |ws| - 1
  {
    if ws == [] then ""
    else if |ws| == 1 then ws[0]
    else ws[0] + " " + JoinWords(ws[1..])
  }

  /** Joining a word in front of further words puts one space after it. */
  lemma JoinWordsCons(w: string, rest: seq<string>)
    requires rest != []
    ensures JoinWords([w] + rest) == w + " " + JoinWords(rest)
  {
    assert ([w] + rest)[1..] == rest;
  }

  /** The concatenation of a sequence of sequences. */
  function Flatten<T>(xss: seq<seq<T>>): seq<T> {
    if xss == [] then [] else xss[0] + Flatten(xss[1..])
  }

  lemma {:induction false} FlattenAppend<T>(a: seq<seq<T>>, b: seq<seq<T>>)
    ensures Flatten(a + b) == Flatten(a) + Flatten(b)
  {
    if a == [] {
      assert a + b == b;
    } else {
      assert (a + b)[1..] == a[1..] + b;
      FlattenAppend(a[1..], b);
    }
  }

  /** A whitespace-free prefix followed by nothing or by whitespace is exactly
      the first word's extent. */
  lemma {:induction false} WordLengthOfPrefix(w: string, t: string)
    requires NoSpace(w)
    requires t == [] || IsSpace(t[0])
    ensures WordLength(w + t) == |w|
  {
    if w != [] {
      assert (w + t)[1..] == w[1..] + t;
      WordLengthOfPrefix(w[1..], t);
    }
  }

  /** Leading whitespace does not change the words. */
  lemma {:induction false} WordsSkipBlank(b: string, s: string)
    requires IsBlank(b)
    ensures Words(b + s) == Words(s)
  {
    if b != [] {
      assert (b + s)[0] == b[0] && IsSpace(b[0]);
      assert (b + s)[1..] == b[1..] + s;
      WordsSkipBlank(b[1..], s);
    } else {
      assert b + s == s;
    }
  }

  /** A non-empty whitespace-free word followed by nothing or by whitespace is
      split off as the first word. */
  lemma WordsOfWordThen(w: string, t: string)
    requires w != [] && NoSpace(w)
    requires t == [] || IsSpace(t[0])
    ensures Words(w + t) == [w] + Words(t)
  {
    WordLengthOfPrefix(w, t);
    assert (w + t)[..|w|] == w;
    assert (w + t)[|w|..] == t;
  }

  /** Round trip of split and join: splitting `' '.join(ws)` gives back `ws`
      whenever `ws` is a list of non-empty whitespace-free words. */
  lemma {:induction false} WordsOfJoin(ws: seq<string>)
    requires ValidWords(ws)
    ensures Words(JoinWords(ws)) == ws
  {
    if ws == [] {
    } else if |ws| == 1 {
      WordsOfWordThen(ws[0], "");
      assert ws[0] + "" == ws[0];
    } else {
      var rest := JoinWords(ws[1..]);
      assert ws[0] + " " + rest == ws[0] + (" " + rest);
      WordsOfWordThen(ws[0], " " + rest);
      WordsSkipBlank(" ", rest);
      WordsOfJoin(ws[1..]);
    }
  }

  /** A blank text has no words. */
  lemma {:induction false} WordsOfBlank(s: string)
    requires IsBlank(s)
    ensures Words(s) == []
    decreases |s|
  {
    if s != [] {
      assert IsSpace(s[0]);
      WordsOfBlank(s[1..]);
    }
  }

  /** A text with a non-whitespace character has a word. */
  lemma {:induction false} WordsNonEmpty(s: string, i: nat)
    requires i < |s| && !IsSpace(s[i])
    ensures Words(s) != []
    decreases |s|
  {
    if IsSpace(s[0]) {
      WordsNonEmpty(s[1..], i - 1);
    }
  }

  /** Trailing whitespace does not change the words. */
  lemma {:induction false} WordsTrailingBlank(m: string, c: string)
    requires IsBlank(c)
    ensures Words(m + c) == Words(m)
    decreases |m|
  {
    if m == [] {
      assert m + c == c;
      WordsOfBlank(c);
    } else if IsSpace(m[0]) {
      assert m + c == [m[0]] + (m[1..] + c);
      assert m == [m[0]] + m[1..];
      WordsSkipBlank([m[0]], m[1..] + c);
      WordsSkipBlank([m[0]], m[1..]);
      WordsTrailingBlank(m[1..], c);
    } else {
      var k := WordLength(m);
      var w, t := m[..k], m[k..];
      assert m == w + t;
      if t == [] {
        assert m + "" == m;
        WordsOfWordThen(m, "");
        WordsOfWordThen(m, c);
        WordsOfBlank(c);
      } else {
        assert m + c == w + (t + c);
        WordsOfWordThen(w, t + c);
        WordsOfWordThen(w, t);
        WordsTrailingBlank(t, c);
      }
    }
  }

  /** Between two parts of a text, any non-empty whitespace run separates
      words the same way. */
  lemma {:induction false} WordsBlankSwap(x: string, b1: string, b2: string, y: string)
    requires IsBlank(b1) && IsBlank(b2) && b1 != [] && b2 != []
    ensures Words(x + b1 + y) == Words(x + b2 + y)
    decreases |x|
  {
    if x == [] {
      assert x + b1 + y == b1 + y && x + b2 + y == b2 + y;
      WordsSkipBlank(b1, y);
      WordsSkipBlank(b2, y);
    } else if IsSpace(x[0]) {
      assert x + b1 + y == [x[0]] + (x[1..] + b1 + y);
      assert x + b2 + y == [x[0]] + (x[1..] + b2 + y);
      WordsSkipBlank([x[0]], x[1..] + b1 + y);
      WordsSkipBlank([x[0]], x[1..] + b2 + y);
      WordsBlankSwap(x[1..], b1, b2, y);
    } else {
      var k := WordLength(x);
      var w, t := x[..k], x[k..];
      assert x == w + t;
      if t == [] {
        assert x + b1 + y == x + (b1 + y) && x + b2 + y == x + (b2 + y);
        WordsOfWordThen(x, b1 + y);
        WordsOfWordThen(x, b2 + y);
        WordsSkipBlank(b1, y);
        WordsSkipBlank(b2, y);
      } else {
        assert x + b1 + y == w + (t + b1 + y) && x + b2 + y == w + (t + b2 + y);
        WordsOfWordThen(w, t + b1 + y);
        WordsOfWordThen(w, t + b2 + y);
        WordsBlankSwap(t, b1, b2, y);
      }
    }
  }

  /** Stripping does not change the words: `s.strip().split() == s.split()`. */
  lemma WordsOfStrip(x: string)
    ensures Words(Strip(x)) == Words(x)
  {
    if IsBlank(x) {
      WordsOfBlank(x);
      assert Strip(x) == [];
    } else {
      var a, c := StripSplit(x);
      WordsOfPadded(x, a, Strip(x), c);
    }
  }

  /** Whitespace at both ends does not change the words. */
  lemma WordsOfPadded(x: string, a: string, m: string, c: string)
    requires x == a + m + c && IsBlank(a) && IsBlank(c)
    ensures Words(x) == Words(m)
  {
    assert x == a + (m + c);
    WordsSkipBlank(a, m + c);
    WordsTrailingBlank(m, c);
  }

  /** `s.replace(from, to)` for one-character arguments: the same length,
      every `from` becomes `to`, and every other character stays. */
  function ReplaceChar(s: string, from: char, to: char): (r: string)
    ensures |r| == |s|
    ensures forall i | 0 <= i < |s| :: s[i] == from ==> r[i] == to
    ensures forall i | 0 <= i < |s| :: s[i] != from ==> r[i] == s[i]
  {
    seq(|s|, i requires 0 <= i < |s| => if s[i] == from then to else s[i])
  }

  /** Replacing one character by another changes the count of no third
      character. */
  lemma {:induction false} ReplaceCharCount(s: string, from: char, to: char, c: char)
    requires c != from && c != to
    ensures multiset(ReplaceChar(s, from, to))[c] == multiset(s)[c]
  {
    if s != [] {
      var r := ReplaceChar(s, from, to);
      assert r == [r[0]] + ReplaceChar(s[1..], from, to);
      assert s == [s[0]] + s[1..];
      ReplaceCharCount(s[1..], from, to, c);
    }
  }

  /** Deletes every character outside `keep`, as `re.sub('[^...]', '', s)`
      does for the class `keep`. The result is a subsequence of `s` and holds
      only kept characters (KeepOnlyCount shows that no kept character is
      lost). */
  function KeepOnly(s: string, keep: char -> bool): (r: string)
    ensures IsSubsequence(r, s)
    ensures forall i | 0 <= i < |r| :: keep(r[i])
  {
    if s == [] then ""
    else
      var rest := KeepOnly(s[1..], keep);
      if keep(s[0]) then
        assert ([s[0]] + rest)[1..] == rest;
        [s[0]] + rest
      else
        rest
  }

  /** Deletion works piece by piece. */
  lemma {:induction false} KeepOnlyAppend(a: string, b: string, keep: char -> bool)
    ensures KeepOnly(a + b, keep) == KeepOnly(a, keep) + KeepOnly(b, keep)
  {
    if a == [] {
      assert a + b == b;
    } else {
      assert (a + b)[0] == a[0];
      assert (a + b)[1..] == a[1..] + b;
      KeepOnlyAppend(a[1..], b, keep);
    }
  }

  /** Deleting the characters outside `keep` removes no occurrence of a
      character in `keep`, and every occurrence of one outside it. */
  lemma {:induction false} KeepOnlyCount(s: string, keep: char -> bool, c: char)
    ensures multiset(KeepOnly(s, keep))[c] == if keep(c) then multiset(s)[c] else 0
  {
    if s != [] {
      KeepOnlyCount(s[1..], keep, c);
      assert s == [s[0]] + s[1..];
    }
  }

  /** Whatever holds of every character of `s` holds of every character left
      after deleting some of them. */
  lemma {:induction false} KeepOnlyInherits(s: string, keep: char -> bool, p: char -> bool)
    requires forall i | 0 <= i < |s| :: p(s[i])
    ensures forall i | 0 <= i < |KeepOnly(s, keep)| :: p(KeepOnly(s, keep)[i])
  {
    if s != [] {
      KeepOnlyInherits(s[1..], keep, p);
    }
  }

  /** Deleting characters never makes a string longer. */
  lemma {:induction false} KeepOnlyShorter(s: string, keep: char -> bool)
    ensures |KeepOnly(s, keep)| <= |s|
  {
    if s != [] {
      KeepOnlyShorter(s[1..], keep);
    }
  }

  /** `a` is obtained from `b` by deleting characters only. */
  predicate IsSubsequence(a: string, b: string)
    decreases |b|
  {
    if a == [] then true
    else if b == [] then false
    else (a[0] == b[0] && IsSubsequence(a[1..], b[1..])) || IsSubsequence(a, b[1..])
  }

  lemma {:induction false} SubsequenceTransitive(a: string, b: string, c: string)
    requires IsSubsequence(a, b) && IsSubsequence(b, c)
    ensures IsSubsequence(a, c)
    decreases |c|
  {
    if a == [] {
    } else if IsSubsequence(b, c[1..]) {
      SubsequenceTransitive(a, b, c[1..]);
    } else if a[0] == b[0] && IsSubsequence(a[1..], b[1..]) {
      SubsequenceTransitive(a[1..], b[1..], c[1..]);
    } else {
      SubsequenceTransitive(a, b[1..], c[1..]);
    }
  }

  /** Dropping characters from both ends is a deletion. */
  lemma {:induction false} SliceIsSubsequence(s: string, i: nat, j: nat)
    requires i <= j <= |s|
    ensures IsSubsequence(s[i..j], s)
    decreases |s|
  {
    if i == j {
    } else if i > 0 {
      SliceIsSubsequence(s[1..], i - 1, j - 1);
      assert s[1..][i - 1..j - 1] == s[i..j];
    } else {
      SliceIsSubsequence(s[1..], 0, j - 1);
      assert s[1..][..j - 1] == s[i..j][1..];
    }
  }
}
