/** `extract_keywords_simple` (backend/matcher/views.py:75-80): the words of at
    least three ASCII letters of the lowercased text, stopwords dropped, counted,
    ranked by count (ties in order of first occurrence) and cut to the first 30.

    The regex's word boundary `\b` depends on Python's Unicode class `\w`; it is
    the parameter `isWord`, and `WordClass` says what the model needs of it. */
module SimpleKeywords {
  import opened Seqs
  import opened Text
  import opened StableSort

  /** The shortest word the regex `[a-zA-Z]{3,}` accepts. */
  const MinLength: nat := 3

  /** The number of keywords returned. */
  const MaxKeywords: nat := 30

  /** `\w` contains every ASCII letter, digit and underscore. */
  predicate WordClass(isWord: char -> bool) {
    forall c :: IsAsciiWordChar(c) ==> isWord(c)
  }

  /** `\w` restricted to the ASCII range is exactly the ASCII word characters. */
  predicate AgreesOnAscii(isWord: char -> bool) {
    forall c: char :: c < 128 as char ==> (isWord(c) <==> IsAsciiWordChar(c))
  }

  /** A word the regex accepts: at least three ASCII letters. */
  predicate IsToken(w: string) {
    |w| >= MinLength && forall k :: 0 <= k < |w| ==> IsAsciiLetter(w[k])
  }

  /** The regex matches `s[i..j]`: a word boundary before and after, and at
      least three ASCII letters in between. */
  predicate MatchAt(s: string, i: int, j: int, isWord: char -> bool) {
    0 <= i < j <= |s| && IsToken(s[i..j])
    && (i == 0 || !isWord(s[i - 1]))
    && (j == |s| || !isWord(s[j]))
  }

  /** The length of the run of word characters that starts `s`. */
  function RunLength(s: string, isWord: char -> bool): (n: nat)
    ensures n <= |s|
    ensures forall k :: 0 <= k < n ==> isWord(s[k])
    ensures n < |s| ==> !isWord(s[n])
  {
    if s == [] || !isWord(s[0]) then 0 else 1 + RunLength(s[1..], isWord)
  }

  /** A run ends where the word characters end. */
  lemma {:induction false} RunLengthExact(s: string, isWord: char -> bool, j: nat)
    requires j <= |s|
    requires forall k :: 0 <= k < j ==> isWord(s[k])
    requires j == |s| || !isWord(s[j])
    ensures RunLength(s, isWord) == j
  {
    if j > 0 {
      RunLengthExact(s[1..], isWord, j - 1);
    }
  }

  /** The regex search for whole words of three or more ASCII letters: each
      maximal run of word characters that consists of at least three ASCII
      letters, in order. */
  function Tokens(s: string, isWord: char -> bool): (r: seq<string>)
    ensures forall k :: 0 <= k < |r| ==> IsToken(r[k])
    decreases |s|
  {
    if s == [] then []
    else if !isWord(s[0]) then Tokens(s[1..], isWord)
    else
      var n := RunLength(s, isWord);
      (if IsToken(s[..n]) then [s[..n]] else []) + Tokens(s[n..], isWord)
  }

  /** Every character of a word found is a character of the text. */
  lemma {:induction false} TokensChars(s: string, isWord: char -> bool, k: nat, m: nat)
    requires k < |Tokens(s, isWord)| && m < |Tokens(s, isWord)[k]|
    ensures Tokens(s, isWord)[k][m] in s
    decreases |s|
  {
    if !isWord(s[0]) {
      TokensChars(s[1..], isWord, k, m);
      assert Tokens(s, isWord)[k][m] in s[1..];
    } else {
      var n := RunLength(s, isWord);
      var h := if IsToken(s[..n]) then [s[..n]] else [];
      assert Tokens(s, isWord) == h + Tokens(s[n..], isWord);
      if k < |h| {
        assert Tokens(s, isWord)[k][m] == s[m];
      } else {
        TokensChars(s[n..], isWord, k - |h|, m);
        assert Tokens(s, isWord)[k][m] in s[n..];
      }
    }
  }

  /** A separator splits the text: the words of the two sides, in order. */
  lemma {:induction false} TokensSplit(a: string, c: char, b: string, isWord: char -> bool)
    requires !isWord(c)
    ensures Tokens(a + [c] + b, isWord) == Tokens(a, isWord) + Tokens(b, isWord)
    decreases |a|, 1
  {
    var s := a + [c] + b;
    if a == [] {
      assert s[1..] == b;
      assert Tokens(s, isWord) == Tokens(b, isWord);
    } else if !isWord(a[0]) {
      assert s[1..] == a[1..] + [c] + b;
      assert Tokens(s, isWord) == Tokens(s[1..], isWord);
      assert Tokens(a, isWord) == Tokens(a[1..], isWord);
      TokensSplit(a[1..], c, b, isWord);
    } else {
      TokensSplitRun(a, c, b, isWord);
    }
  }

  /** `TokensSplit` when the text starts with a run of word characters. */
  lemma {:induction false} TokensSplitRun(a: string, c: char, b: string, isWord: char -> bool)
    requires !isWord(c)
    requires a != [] && isWord(a[0])
    ensures Tokens(a + [c] + b, isWord) == Tokens(a, isWord) + Tokens(b, isWord)
    decreases |a|, 0
  {
    var s := a + [c] + b;
    var n := RunLength(a, isWord);
    var h := if IsToken(a[..n]) then [a[..n]] else [];
    assert RunLength(s, isWord) == n && s[..n] == a[..n] && s[n..] == a[n..] + [c] + b by {
      RunLengthExact(s, isWord, n);
    }
    calc {
      Tokens(s, isWord);
      h + Tokens(s[n..], isWord);
      h + Tokens(a[n..] + [c] + b, isWord);
      { TokensSplit(a[n..], c, b, isWord); }
      h + (Tokens(a[n..], isWord) + Tokens(b, isWord));
      Tokens(a, isWord) + Tokens(b, isWord);
    }
  }

  /** A run of word characters is one word if the regex accepts it, else none. */
  lemma TokensOfRun(w: string, isWord: char -> bool)
    requires w != []
    requires forall k :: 0 <= k < |w| ==> isWord(w[k])
    ensures Tokens(w, isWord) == if IsToken(w) then [w] else []
  {
    RunLengthExact(w, isWord, |w|);
    assert w[..|w|] == w && w[|w|..] == [];
  }

  /** A match in a suffix of the text is a match in the text, provided the
      character before the suffix does not join it. */
  lemma MatchShift(s: string, d: nat, i: int, j: int, isWord: char -> bool)
    requires 0 < d <= |s|
    requires MatchAt(s[d..], i, j, isWord)
    requires i > 0 || !isWord(s[d - 1])
    ensures MatchAt(s, i + d, j + d, isWord) && s[d..][i..j] == s[i + d..j + d]
  {
    assert s[d..][i..j] == s[i + d..j + d] by {
      forall m | 0 <= m < j - i ensures s[d..][i..j][m] == s[i + d..j + d][m] {
        assert s[d..][i..j][m] == s[d..][i + m] == s[i + d + m];
      }
    }
  }

  /** Every word found is a match of the regex in the text. */
  lemma {:induction false} TokensSound(s: string, isWord: char -> bool, k: nat)
    requires WordClass(isWord)
    requires k < |Tokens(s, isWord)|
    ensures exists i, j :: MatchAt(s, i, j, isWord) && Tokens(s, isWord)[k] == s[i..j]
    decreases |s|, 1
  {
    if !isWord(s[0]) {
      TokensSoundSkip(s, isWord, k);
    } else {
      TokensSoundRun(s, isWord, k);
    }
  }

  /** The words after a leading non-word character. */
  lemma {:induction false} TokensSoundSkip(s: string, isWord: char -> bool, k: nat)
    requires WordClass(isWord)
    requires s != [] && !isWord(s[0])
    requires k < |Tokens(s[1..], isWord)|
    ensures Tokens(s, isWord) == Tokens(s[1..], isWord)
    ensures exists i, j :: MatchAt(s, i, j, isWord) && Tokens(s[1..], isWord)[k] == s[i..j]
    decreases |s|, 0
  {
    var w := Tokens(s[1..], isWord)[k];
    TokensSound(s[1..], isWord, k);
    var i, j :| MatchAt(s[1..], i, j, isWord) && w == s[1..][i..j];
    MatchShift(s, 1, i, j, isWord);
    assert MatchAt(s, i + 1, j + 1, isWord) && w == s[i + 1..j + 1];
  }

  /** The words of a text that starts with a run of word characters. */
  lemma {:induction false} TokensSoundRun(s: string, isWord: char -> bool, k: nat)
    requires WordClass(isWord)
    requires s != [] && isWord(s[0])
    requires k < |Tokens(s, isWord)|
    ensures exists i, j :: MatchAt(s, i, j, isWord) && Tokens(s, isWord)[k] == s[i..j]
    decreases |s|, 0
  {
    var n := RunLength(s, isWord);
    var h := if IsToken(s[..n]) then [s[..n]] else [];
    assert Tokens(s, isWord) == h + Tokens(s[n..], isWord);
    var w := Tokens(s, isWord)[k];
    if k < |h| {
      assert MatchAt(s, 0, n, isWord) && w == s[0..n];
    } else {
      var t := s[n..];
      assert w == Tokens(t, isWord)[k - |h|];
      TokensSound(t, isWord, k - |h|);
      var i, j :| MatchAt(t, i, j, isWord) && w == t[i..j];
      assert i > 0 by {
        assert IsAsciiLetter(t[i..j][0]) && t[i..j][0] == t[i];
        assert IsAsciiWordChar(t[i]);
      }
      MatchShift(s, n, i, j, isWord);
      assert MatchAt(s, i + n, j + n, isWord) && w == s[i + n..j + n];
    }
  }

  /** A match past the start of a suffix is a match in that suffix. */
  lemma MatchUnshift(s: string, d: nat, i: int, j: int, isWord: char -> bool)
    requires 0 < d <= i
    requires MatchAt(s, i, j, isWord)
    ensures MatchAt(s[d..], i - d, j - d, isWord) && s[d..][i - d..j - d] == s[i..j]
  {
    assert s[d..][i - d..j - d] == s[i..j] by {
      forall m | 0 <= m < j - i ensures s[d..][i - d..j - d][m] == s[i..j][m] {
        assert s[d..][i - d..j - d][m] == s[d..][i - d + m] == s[i + m];
      }
    }
  }

  /** A match at the start of the text is its first run. */
  lemma MatchAtStart(s: string, j: int, isWord: char -> bool)
    requires WordClass(isWord)
    requires MatchAt(s, 0, j, isWord)
    ensures isWord(s[0]) && RunLength(s, isWord) == j
  {
    forall k | 0 <= k < j ensures isWord(s[k]) {
      assert IsAsciiWordChar(s[..j][k]);
    }
    RunLengthExact(s, isWord, j);
  }

  /** Every match of the regex in the text is found. */
  lemma {:induction false} TokensComplete(s: string, isWord: char -> bool, i: nat, j: nat)
    requires WordClass(isWord)
    requires MatchAt(s, i, j, isWord)
    ensures s[i..j] in Tokens(s, isWord)
    decreases |s|, 1
  {
    if i == 0 {
      MatchAtStart(s, j, isWord);
      assert s[0..j] == s[..j];
    } else if !isWord(s[0]) {
      TokensCompleteSkip(s, isWord, i, j);
    } else {
      TokensCompleteAfterRun(s, isWord, i, j);
    }
  }

  /** A match after a leading non-word character. */
  lemma {:induction false} TokensCompleteSkip(s: string, isWord: char -> bool, i: nat, j: nat)
    requires WordClass(isWord)
    requires MatchAt(s, i, j, isWord) && i > 0 && !isWord(s[0])
    ensures s[i..j] in Tokens(s, isWord)
    decreases |s|, 0
  {
    var w := s[i..j];
    MatchUnshift(s, 1, i, j, isWord);
    TokensComplete(s[1..], isWord, i - 1, j - 1);
    assert w in Tokens(s[1..], isWord);
    assert Tokens(s, isWord) == Tokens(s[1..], isWord);
  }

  /** A match past a leading run of word characters lies after that run. */
  lemma {:induction false} TokensCompleteAfterRun(s: string, isWord: char -> bool, i: nat, j: nat)
    requires WordClass(isWord)
    requires MatchAt(s, i, j, isWord) && i > 0 && isWord(s[0])
    ensures s[i..j] in Tokens(s, isWord)
    decreases |s|, 0
  {
    var n := RunLength(s, isWord);
    assert n < i by {
      assert IsAsciiWordChar(s[i..j][0]) && s[i..j][0] == s[i];
    }
    MatchUnshift(s, n, i, j, isWord);
    TokensComplete(s[n..], isWord, i - n, j - n);
  }

  /** The words that are not stopwords, in their original order. */
  function DropStopwords(words: seq<string>, stopwords: set<string>): (r: seq<string>)
    ensures forall w :: multiset(r)[w] == if w in stopwords then 0 else multiset(words)[w]
  {
    if words == [] then []
    else
      assert words == [words[0]] + words[1..];
      (if words[0] in stopwords then [] else [words[0]]) + DropStopwords(words[1..], stopwords)
  }

  /** Filtering a joined list filters each part in place: with the one-word
      case `DropOne` this fixes the filtered list exactly, every kept word
      where it was. */
  lemma {:induction false} DropStopwordsAppend(a: seq<string>, b: seq<string>, stopwords: set<string>)
    ensures DropStopwords(a + b, stopwords) == DropStopwords(a, stopwords) + DropStopwords(b, stopwords)
  {
    if a == [] {
      assert a + b == b;
    } else {
      var rest := a[1..];
      var head := if a[0] in stopwords then [] else [a[0]];
      calc {
        DropStopwords(a + b, stopwords);
      == { TailOfAppend(a, b); DropFront(a + b, stopwords); }
        head + DropStopwords(rest + b, stopwords);
      == { DropStopwordsAppend(rest, b, stopwords); }
        head + (DropStopwords(rest, stopwords) + DropStopwords(b, stopwords));
      == { SeqAssoc(head, DropStopwords(rest, stopwords), DropStopwords(b, stopwords)); }
        (head + DropStopwords(rest, stopwords)) + DropStopwords(b, stopwords);
      == { DropFront(a, stopwords); }
        DropStopwords(a, stopwords) + DropStopwords(b, stopwords);
      }
    }
  }

  /** The filter takes the first word, then filters the rest. */
  lemma DropFront(words: seq<string>, stopwords: set<string>)
    requires words != []
    ensures DropStopwords(words, stopwords)
         == (if words[0] in stopwords then [] else [words[0]]) + DropStopwords(words[1..], stopwords)
  {
  }

  /** One word is kept exactly when it is not a stopword. */
  lemma DropOne(w: string, stopwords: set<string>)
    ensures DropStopwords([w], stopwords) == if w in stopwords then [] else [w]
  {
    assert [w][1..] == [];
  }

  /** The filter keeps the relative order of the words it keeps: of two
      non-stopwords, the one that first occurs earlier in `words` first occurs
      earlier in the filtered list. */
  lemma {:induction false} DropKeepsOrder(words: seq<string>, stopwords: set<string>, x: string, y: string)
    requires x in words && y in words && x !in stopwords && y !in stopwords
    ensures var kept := DropStopwords(words, stopwords);
      IndexOf(kept, x) < IndexOf(kept, y) <==> IndexOf(words, x) < IndexOf(words, y)
    decreases |words|, 1
  {
    if words[0] in stopwords {
      DropOrderSkip(words, stopwords, x, y);
    } else {
      DropOrderKeep(words, stopwords, x, y);
    }
  }

  /** `DropKeepsOrder` when the first word is a stopword. */
  lemma {:induction false} DropOrderSkip(words: seq<string>, stopwords: set<string>, x: string, y: string)
    requires x in words && y in words && x !in stopwords && y !in stopwords
    requires words[0] in stopwords
    ensures var kept := DropStopwords(words, stopwords);
      IndexOf(kept, x) < IndexOf(kept, y) <==> IndexOf(words, x) < IndexOf(words, y)
    decreases |words|, 0
  {
    var w0, rest := words[0], words[1..];
    assert IndexOf(words, x) == 1 + IndexOf(rest, x) && IndexOf(words, y) == 1 + IndexOf(rest, y) by {
      assert words == [w0] + rest;
      IndexOfCons(w0, rest, x);
      IndexOfCons(w0, rest, y);
    }
    assert DropStopwords(words, stopwords) == DropStopwords(rest, stopwords);
    assert x in rest && y in rest by {
      assert words == [w0] + rest;
    }
    DropKeepsOrder(rest, stopwords, x, y);
  }

  /** `DropKeepsOrder` when the first word is kept. */
  lemma {:induction false} DropOrderKeep(words: seq<string>, stopwords: set<string>, x: string, y: string)
    requires x in words && y in words && x !in stopwords && y !in stopwords
    requires words[0] !in stopwords
    ensures var kept := DropStopwords(words, stopwords);
      IndexOf(kept, x) < IndexOf(kept, y) <==> IndexOf(words, x) < IndexOf(words, y)
    decreases |words|, 0
  {
    var w0, rest := words[0], words[1..];
    var keptRest := DropStopwords(rest, stopwords);
    assert IndexOf(words, x) == (if w0 == x then 0 else 1 + IndexOf(rest, x))
        && IndexOf(words, y) == (if w0 == y then 0 else 1 + IndexOf(rest, y)) by {
      assert words == [w0] + rest;
      IndexOfCons(w0, rest, x);
      IndexOfCons(w0, rest, y);
    }
    assert DropStopwords(words, stopwords) == [w0] + keptRest;
    IndexOfCons(w0, keptRest, x);
    IndexOfCons(w0, keptRest, y);
    if x != w0 && y != w0 {
      assert x in rest && y in rest by {
        assert words == [w0] + rest;
      }
      DropKeepsOrder(rest, stopwords, x, y);
    }
  }

  /** `filtered_words` for a text. */
  function FilteredWords(text: string, stopwords: set<string>, isWord: char -> bool): (r: seq<string>) {
    DropStopwords(Tokens(Lower(text), isWord), stopwords)
  }

  /** The word counter's lookup: the number of occurrences of a word. */
  function CountIn(words: seq<string>): (r: string -> int) {
    w => multiset(words)[w]
  }

  /** The distinct words in first-occurrence order (the Counter's key order),
      stably sorted by count, most frequent first. */
  function ByCount(words: seq<string>): (r: seq<string>)
    ensures NoDuplicates(r)
    ensures forall x :: x in r <==> x in words
    ensures NonIncreasing(r, CountIn(words))
  {
    var d := Dedup(words);
    var r := SortDesc(d, CountIn(words));
    SameElements(r, d);
    DedupElements(words);
    PermutationNoDuplicates(r, d);
    r
  }

  /** The value `extract_keywords_simple` returns for a text. */
  function ExtractKeywordsSimple(text: string, stopwords: set<string>, isWord: char -> bool): (r: seq<string>)
    ensures |r| <= MaxKeywords
    ensures forall k :: 0 <= k < |r| ==> r[k] in FilteredWords(text, stopwords, isWord)
  {
    Take(ByCount(FilteredWords(text, stopwords, isWord)), MaxKeywords)
  }

  /** The words of a lowercased text have only small letters. */
  lemma LoweredTokens(text: string, isWord: char -> bool, k: nat)
    requires k < |Tokens(Lower(text), isWord)|
    ensures var w := Tokens(Lower(text), isWord)[k];
      |w| >= MinLength && forall m :: 0 <= m < |w| ==> IsAsciiLower(w[m])
  {
    var s := Lower(text);
    var w := Tokens(s, isWord)[k];
    forall m | 0 <= m < |w| ensures IsAsciiLower(w[m]) {
      TokensChars(s, isWord, k, m);
      var q :| 0 <= q < |s| && s[q] == w[m];
      assert IsAsciiLetter(w[m]) && !IsAsciiUpper(s[q]);
    }
  }

  /** Each keyword is a word of the lowercased text, at least three small ASCII
      letters, not a stopword. */
  lemma ExtractedWord(text: string, stopwords: set<string>, isWord: char -> bool, k: nat)
    requires k < |ExtractKeywordsSimple(text, stopwords, isWord)|
    ensures var w := ExtractKeywordsSimple(text, stopwords, isWord)[k];
      && w in Tokens(Lower(text), isWord)
      && w !in stopwords
      && |w| >= MinLength
      && forall m :: 0 <= m < |w| ==> IsAsciiLower(w[m])
  {
    var words := FilteredWords(text, stopwords, isWord);
    var sorted := ByCount(words);
    var w := ExtractKeywordsSimple(text, stopwords, isWord)[k];
    assert w == sorted[k] && sorted[k] in multiset(Dedup(words));
    assert multiset(words)[w] > 0;
    var tokens := Tokens(Lower(text), isWord);
    assert multiset(tokens)[w] > 0;
    var q :| 0 <= q < |tokens| && tokens[q] == w;
    LoweredTokens(text, isWord, q);
  }

  /** No keyword is returned twice, and at most 30 are. */
  lemma ExtractKeywordsDistinct(text: string, stopwords: set<string>, isWord: char -> bool)
    ensures |ExtractKeywordsSimple(text, stopwords, isWord)| <= MaxKeywords
    ensures NoDuplicates(ExtractKeywordsSimple(text, stopwords, isWord))
  {
    var words := FilteredWords(text, stopwords, isWord);
    PermutationNoDuplicates(ByCount(words), Dedup(words));
  }

  /** Counts never increase along the result, and keywords with equal counts
      come in the order of their first occurrence in the filtered words. */
  lemma ExtractKeywordsOrder(text: string, stopwords: set<string>, isWord: char -> bool, i: nat, j: nat)
    requires i < j < |ExtractKeywordsSimple(text, stopwords, isWord)|
    ensures var r, words := ExtractKeywordsSimple(text, stopwords, isWord), FilteredWords(text, stopwords, isWord);
      && multiset(words)[r[i]] >= multiset(words)[r[j]]
      && (multiset(words)[r[i]] == multiset(words)[r[j]] ==> IndexOf(words, r[i]) < IndexOf(words, r[j]))
  {
    var words := FilteredWords(text, stopwords, isWord);
    var sorted := ByCount(words);
    var r := ExtractKeywordsSimple(text, stopwords, isWord);
    assert r[i] == sorted[i] && r[j] == sorted[j];
    assert CountIn(words)(sorted[i]) >= CountIn(words)(sorted[j]);
    if multiset(words)[r[i]] == multiset(words)[r[j]] {
      SortDescKeepsTies(Dedup(words), CountIn(words), i, j);
      PrecedesInDedup(words, r[i], r[j]);
    }
  }

  /** The same order stated against the words of the lowercased text itself:
      counts there never increase along the result, and keywords with equal
      counts come in the order of their first occurrence in the text. */
  lemma ExtractKeywordsTextOrder(text: string, stopwords: set<string>, isWord: char -> bool, i: nat, j: nat)
    requires i < j < |ExtractKeywordsSimple(text, stopwords, isWord)|
    ensures var r, tokens := ExtractKeywordsSimple(text, stopwords, isWord), Tokens(Lower(text), isWord);
      && multiset(tokens)[r[i]] >= multiset(tokens)[r[j]]
      && (multiset(tokens)[r[i]] == multiset(tokens)[r[j]] ==> IndexOf(tokens, r[i]) < IndexOf(tokens, r[j]))
  {
    var r, tokens := ExtractKeywordsSimple(text, stopwords, isWord), Tokens(Lower(text), isWord);
    var words := FilteredWords(text, stopwords, isWord);
    var x, y := r[i], r[j];
    assert x in tokens && x !in stopwords by {
      ExtractedWord(text, stopwords, isWord, i);
    }
    assert y in tokens && y !in stopwords by {
      ExtractedWord(text, stopwords, isWord, j);
    }
    assert multiset(words)[x] == multiset(tokens)[x] && multiset(words)[y] == multiset(tokens)[y];
    assert multiset(words)[x] >= multiset(words)[y]
      && (multiset(words)[x] == multiset(words)[y] ==> IndexOf(words, x) < IndexOf(words, y)) by {
      ExtractKeywordsOrder(text, stopwords, isWord, i, j);
    }
    DropKeepsOrder(tokens, stopwords, x, y);
  }

  /** Top 30: a filtered word left out of the result means that 30 keywords were
      returned, each at least as frequent as it. */
  lemma ExtractKeywordsTop(text: string, stopwords: set<string>, isWord: char -> bool, w: string)
    requires w in FilteredWords(text, stopwords, isWord)
    requires w !in ExtractKeywordsSimple(text, stopwords, isWord)
    ensures var r, words := ExtractKeywordsSimple(text, stopwords, isWord), FilteredWords(text, stopwords, isWord);
      && |r| == MaxKeywords
      && (forall k :: 0 <= k < |r| ==> multiset(words)[r[k]] >= multiset(words)[w])
      && (forall k :: 0 <= k < |r| && multiset(words)[r[k]] == multiset(words)[w] ==>
            IndexOf(words, r[k]) < IndexOf(words, w))
  {
    var words := FilteredWords(text, stopwords, isWord);
    assert ExtractKeywordsSimple(text, stopwords, isWord) == Take(ByCount(words), MaxKeywords);
    CutWord(words, w);
  }

  /** `ExtractKeywordsTop` on the filtered words themselves. */
  lemma CutWord(words: seq<string>, w: string)
    requires w in words && w !in Take(ByCount(words), MaxKeywords)
    ensures var r := Take(ByCount(words), MaxKeywords);
      && |r| == MaxKeywords
      && (forall k :: 0 <= k < |r| ==> multiset(words)[r[k]] >= multiset(words)[w])
      && (forall k :: 0 <= k < |r| && multiset(words)[r[k]] == multiset(words)[w] ==>
            IndexOf(words, r[k]) < IndexOf(words, w))
  {
    var r := Take(ByCount(words), MaxKeywords);
    CutCount(words, w);
    forall k | 0 <= k < |r| && multiset(words)[r[k]] == multiset(words)[w]
      ensures IndexOf(words, r[k]) < IndexOf(words, w)
    {
      CutTie(words, w, k);
    }
  }

  /** A word cut at the 30th place occurs no more often than any returned one. */
  lemma CutCount(words: seq<string>, w: string)
    requires w in words && w !in Take(ByCount(words), MaxKeywords)
    ensures var r := Take(ByCount(words), MaxKeywords);
      && |r| == MaxKeywords
      && forall k :: 0 <= k < |r| ==> multiset(words)[r[k]] >= multiset(words)[w]
  {
    TakeSortedTop(ByCount(words), CountIn(words), MaxKeywords, w);
  }

  /** A word cut at the 30th place that ties with a returned one first occurs
      after it. */
  lemma CutTie(words: seq<string>, w: string, k: nat)
    requires w in words && w !in Take(ByCount(words), MaxKeywords)
    requires k < |Take(ByCount(words), MaxKeywords)|
    requires multiset(words)[Take(ByCount(words), MaxKeywords)[k]] == multiset(words)[w]
    ensures IndexOf(words, Take(ByCount(words), MaxKeywords)[k]) < IndexOf(words, w)
  {
    var sorted := ByCount(words);
    var r := Take(sorted, MaxKeywords);
    assert w in multiset(Dedup(words));
    var q :| 0 <= q < |sorted| && sorted[q] == w;
    assert q >= |r| by {
      assert forall i :: 0 <= i < |r| ==> r[i] == sorted[i];
    }
    assert r[k] == sorted[k];
    assert CountIn(words)(sorted[k]) == CountIn(words)(sorted[q]);
    SortDescKeepsTies(Dedup(words), CountIn(words), k, q);
    PrecedesInDedup(words, r[k], w);
  }

  /** A word followed by a space: the word, then the words after the space. */
  lemma TokensOfLetters(w: string, rest: string, isWord: char -> bool)
    requires AgreesOnAscii(isWord)
    requires IsToken(w) && NoAsciiUpper(w)
    ensures Tokens(w + " " + rest, isWord) == [w] + Tokens(rest, isWord)
  {
    assert !isWord(' ');
    forall k | 0 <= k < |w| ensures isWord(w[k]) {
      assert IsAsciiWordChar(w[k]) && w[k] < 128 as char;
    }
    TokensOfRun(w, isWord);
    TokensSplit(w, ' ', rest, isWord);
  }

  /** Filtering words none of which is a stopword keeps them all. */
  lemma {:induction false} DropNoStopwords(words: seq<string>, stopwords: set<string>)
    requires forall k :: 0 <= k < |words| ==> words[k] !in stopwords
    ensures DropStopwords(words, stopwords) == words
  {
    if words != [] {
      DropNoStopwords(words[1..], stopwords);
    }
  }

  lemma DedupRepeatedLast(a: string, b: string)
    requires a != b
    ensures Dedup([a, b, b]) == [a, b]
  {
    assert [a][..0] == [];
    assert Dedup([a]) == [a];
    assert [a, b][..1] == [a];
    assert Dedup([a, b]) == [a, b];
    assert [a, b, b][..2] == [a, b];
  }

  /** The words of `a b b`. */
  lemma TokensABB(a: string, b: string, isWord: char -> bool)
    requires AgreesOnAscii(isWord)
    requires IsToken(a) && IsToken(b)
    requires NoAsciiUpper(a) && NoAsciiUpper(b)
    ensures Tokens(Lower(a + " " + b + " " + b), isWord) == [a, b, b]
  {
    var bb := b + " " + b;
    var text := a + " " + bb;
    assert a + " " + b + " " + b == text;
    assert Lower(text) == text by {
      assert NoAsciiUpper(" ");
      NoAsciiUpperConcat(b, " ");
      NoAsciiUpperConcat(b + " ", b);
      NoAsciiUpperConcat(a, " ");
      NoAsciiUpperConcat(a + " ", bb);
      assert text == a + " " + bb;
      LowerOfLowercase(text);
    }
    assert Tokens(bb, isWord) == [b, b] by {
      TokensOfLetters(b, b, isWord);
      TokensOfRun(b, isWord);
    }
    TokensOfLetters(a, bb, isWord);
  }

  /** Ranking `a b b`: `b` occurs twice, `a` once. */
  lemma ByCountABB(a: string, b: string)
    requires a != b
    ensures ByCount([a, b, b]) == [b, a]
  {
    var words := [a, b, b];
    DedupRepeatedLast(a, b);
    assert multiset(words)[a] == 1 && multiset(words)[b] == 2;
    SortDescSwapsTwo(a, b, CountIn(words));
  }

  /** A word followed by a later word twice: the more frequent later word is
      ranked first. */
  lemma MoreFrequentFirst(a: string, b: string, stopwords: set<string>, isWord: char -> bool)
    requires AgreesOnAscii(isWord)
    requires IsToken(a) && IsToken(b) && a != b
    requires NoAsciiUpper(a) && NoAsciiUpper(b)
    requires a !in stopwords && b !in stopwords
    ensures ExtractKeywordsSimple(a + " " + b + " " + b, stopwords, isWord) == [b, a]
  {
    FilteredABB(a, b, stopwords, isWord);
    ByCountABB(a, b);
  }

  /** The filtered words of `a b b`. */
  lemma FilteredABB(a: string, b: string, stopwords: set<string>, isWord: char -> bool)
    requires AgreesOnAscii(isWord)
    requires IsToken(a) && IsToken(b)
    requires NoAsciiUpper(a) && NoAsciiUpper(b)
    requires a !in stopwords && b !in stopwords
    ensures FilteredWords(a + " " + b + " " + b, stopwords, isWord) == [a, b, b]
  {
    assert Tokens(Lower(a + " " + b + " " + b), isWord) == [a, b, b] by {
      TokensABB(a, b, isWord);
    }
    KeepsABB(a, b, stopwords);
  }

  /** Filtering `a b b` keeps all three words when neither is a stopword. */
  lemma KeepsABB(a: string, b: string, stopwords: set<string>)
    requires a !in stopwords && b !in stopwords
    ensures DropStopwords([a, b, b], stopwords) == [a, b, b]
  {
    var one, two, three := [b], [b, b], [a, b, b];
    assert DropStopwords(one, stopwords) == one by {
      assert one == [b] + [];
      DropKeeps(b, [], stopwords);
    }
    assert DropStopwords(two, stopwords) == two by {
      assert two == [b] + one;
      DropKeeps(b, one, stopwords);
    }
    assert three == [a] + two;
    DropKeeps(a, two, stopwords);
  }

  /** A word that is not a stopword is kept in front of the filtered rest. */
  lemma DropKeeps(w: string, rest: seq<string>, stopwords: set<string>)
    requires w !in stopwords
    ensures DropStopwords([w] + rest, stopwords) == [w] + DropStopwords(rest, stopwords)
  {
    assert ([w] + rest)[1..] == rest;
  }
}
