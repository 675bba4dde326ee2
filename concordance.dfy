/**
 * Concordance extraction (lab_1/main.py).
 *
 * A text is lower-cased and cut into tokens; stop words are filtered out;
 * token frequencies are counted and the most frequent words reported. A
 * concordance lists, for every occurrence of a word, the window of tokens
 * around it; adjacent words are the two ends of those windows, and a sorted
 * concordance files the windows under a key token and lists them by key.
 */
module Concordance {
  import opened PyText

  type Tokens = seq<string>

  // ---------------------------------------------------------------------------
  // tokenize

  /** The characters the pattern `[^a-z \n]` leaves in place. */
  predicate Kept(c: char) {
    IsLowerLetter(c) || c == ' ' || c == '\n'
  }

  /** `re.sub('[^a-z \n]', '', s)`: every other character is deleted. */
  function KeepAllowed(s: string): (r: string)
    ensures |r| <= |s|
    ensures forall c :: c in r <==> c in s && Kept(c)
  {
    if s == [] then [] else (if Kept(s[0]) then [s[0]] else []) + KeepAllowed(s[1..])
  }

  /** The lower-case ASCII letters of `s`, in order. */
  function Letters(s: string): string
  {
    if s == [] then [] else (if IsLowerLetter(s[0]) then [s[0]] else []) + Letters(s[1..])
  }

  /** `text.lower()`, the deletion of everything but letters, blanks and
      newlines, then `split()`. Every token is a non-empty run of a-z. */
  function Tokenize(text: string): (tokens: Tokens)
    ensures forall k :: 0 <= k < |tokens| ==>
      tokens[k] != [] && forall c :: c in tokens[k] ==> IsLowerLetter(c)
  {
    var kept := KeepAllowed(Lower(text));
    TokenCharsAreLetters(kept);
    Words(kept)
  }

  lemma TokenCharsAreLetters(kept: string)
    requires forall c :: c in kept ==> Kept(c)
    ensures forall k, c :: 0 <= k < |Words(kept)| && c in Words(kept)[k] ==> IsLowerLetter(c)
  {
    forall k, c | 0 <= k < |Words(kept)| && c in Words(kept)[k]
      ensures IsLowerLetter(c)
    {
      WordsChars(kept, k, c);
    }
  }

  lemma {:induction false} KeepAllowedAppend(s: string, t: string)
    ensures KeepAllowed(s + t) == KeepAllowed(s) + KeepAllowed(t)
  {
    if s == [] {
      assert s + t == t;
    } else {
      assert (s + t)[1..] == s[1..] + t;
      KeepAllowedAppend(s[1..], t);
    }
  }

  lemma {:induction false} KeptLettersOnly(s: string)
    ensures NonSpace(KeepAllowed(s)) == Letters(s)
  {
    if s != [] {
      var piece := if Kept(s[0]) then [s[0]] else [];
      KeptLettersOnly(s[1..]);
      NonSpaceAppend(piece, KeepAllowed(s[1..]));
      if Kept(s[0]) {
        assert NonSpace(piece) == NonSpace(piece[1..]) + (if IsSpace(s[0]) then [] else [s[0]]);
      }
    }
  }

  /** The tokens, glued back together, are exactly the letters of the
      lower-cased text, in order. */
  lemma TokensAreTheLetters(text: string)
    ensures Concat(Tokenize(text)) == Letters(Lower(text))
  {
    WordsConcat(KeepAllowed(Lower(text)));
    KeptLettersOnly(Lower(text));
  }

  /** A character other than a letter, blank or newline is deleted, not
      treated as a separator: removing it from the text leaves the tokens
      unchanged, even in the middle of a word. */
  lemma DeletedNotSeparator(before: string, c: char, after: string)
    requires !Kept(LowerChar(c))
    ensures Tokenize(before + [c] + after) == Tokenize(before + after)
  {
    var lb, x, la := Lower(before), LowerChar(c), Lower(after);
    assert Lower(before + [c] + after) == lb + [x] + la;
    assert Lower(before + after) == lb + la;
    assert KeepAllowed([x]) == [] by {
      assert [x][1..] == [];
    }
    KeepAllowedAppend(lb + [x], la);
    KeepAllowedAppend(lb, [x]);
    KeepAllowedAppend(lb, la);
    assert KeepAllowed(lb + [x] + la) == KeepAllowed(lb + la);
  }

  lemma {:induction false} JoinedChars(ws: Tokens)
    requires forall k :: 0 <= k < |ws| ==> forall c :: c in ws[k] ==> IsLowerLetter(c)
    ensures forall c :: c in Join(ws, ' ') ==> IsLowerLetter(c) || c == ' '
  {
    if |ws| > 1 {
      JoinedChars(ws[1..]);
    }
  }

  lemma {:induction false} KeepAllowedIdentity(s: string)
    requires forall c :: c in s ==> Kept(c)
    ensures KeepAllowed(s) == s
  {
    if s != [] {
      KeepAllowedIdentity(s[1..]);
      assert s == [s[0]] + s[1..];
    }
  }

  lemma {:induction false} WordLengthAt(s: string, m: nat)
    requires m <= |s|
    requires forall i :: 0 <= i < m ==> !IsSpace(s[i])
    requires m == |s| || IsSpace(s[m])
    ensures WordLength(s) == m
  {
    if m > 0 {
      WordLengthAt(s[1..], m - 1);
    }
  }

  lemma {:induction false} WordsOfJoined(ws: Tokens)
    requires forall k :: 0 <= k < |ws| ==> ws[k] != [] && forall c :: c in ws[k] ==> !IsSpace(c)
    ensures Words(Join(ws, ' ')) == ws
  {
    if ws != [] {
      var w := ws[0];
      var s := Join(ws, ' ');
      assert w[0] in w;
      if |ws| == 1 {
        assert s == w;
        WordLengthAt(s, |w|);
        assert s[..|w|] == w && s[|w|..] == [];
      } else {
        var rest := Join(ws[1..], ' ');
        assert s == w + [' '] + rest;
        forall i | 0 <= i < |w| ensures !IsSpace(s[i]) {
          assert s[i] == w[i] && w[i] in w;
        }
        WordLengthAt(s, |w|);
        assert s[..|w|] == w && s[|w|..] == [' '] + rest;
        assert ([' '] + rest)[1..] == rest;
        WordsOfJoined(ws[1..]);
        assert Words(s) == [w] + ws[1..];
      }
    }
  }

  /** A text that lower-cases to lower-case words joined by blanks
      tokenizes to exactly those words. */
  lemma TokenizeJoined(text: string, ws: Tokens)
    requires forall k :: 0 <= k < |ws| ==> ws[k] != [] && forall c :: c in ws[k] ==> IsLowerLetter(c)
    requires Lower(text) == Join(ws, ' ')
    ensures Tokenize(text) == ws
  {
    var joined := Join(ws, ' ');
    JoinedChars(ws);
    KeepAllowedIdentity(joined);
    WordsOfJoined(ws);
    assert KeepAllowed(Lower(text)) == joined;
  }

  lemma {:induction false} WordsAppendBlank(x: string, y: string)
    ensures Words(x + [' '] + y) == Words(x) + Words(y)
    decreases |x|
  {
    var s := x + [' '] + y;
    if x == [] {
      assert s[1..] == y;
    } else if IsSpace(x[0]) {
      assert s[1..] == x[1..] + [' '] + y;
      WordsAppendBlank(x[1..], y);
    } else {
      var n := WordLength(x);
      forall i | 0 <= i < n ensures !IsSpace(s[i]) {
        assert s[i] == x[i];
      }
      assert n == |x| || IsSpace(s[n]) by {
        if n < |x| {
          assert s[n] == x[n];
        }
      }
      WordLengthAt(s, n);
      assert s[..n] == x[..n];
      assert s[n..] == x[n..] + [' '] + y;
      WordsAppendBlank(x[n..], y);
      assert ([x[..n]] + Words(x[n..])) + Words(y) == [x[..n]] + (Words(x[n..]) + Words(y));
    }
  }

  /** A blank always separates tokens: the tokens of two texts joined by a
      blank are the tokens of the first followed by those of the second. */
  lemma TokenizeAppendBlank(x: string, y: string)
    ensures Tokenize(x + [' '] + y) == Tokenize(x) + Tokenize(y)
  {
    var lx, ly := Lower(x), Lower(y);
    assert Lower(x + [' '] + y) == lx + [' '] + ly;
    assert KeepAllowed([' ']) == [' '] by {
      assert [' '][1..] == [];
    }
    KeepAllowedAppend(lx + [' '], ly);
    KeepAllowedAppend(lx, [' ']);
    WordsAppendBlank(KeepAllowed(lx), KeepAllowed(ly));
  }

  // ---------------------------------------------------------------------------
  // remove_stop_words

  /** The tokens that are not stop words, in their original order. */
  function RemoveStopWords(tokens: Tokens, stopWords: Tokens): (r: Tokens)
    ensures IsSubsequence(r, tokens)
    ensures forall w :: w in r ==> w !in stopWords
  {
    if tokens == [] then (SubsequenceEmpty(tokens); [])
    else
      var rest := RemoveStopWords(tokens[..|tokens| - 1], stopWords);
      var last := tokens[|tokens| - 1];
      assert tokens == tokens[..|tokens| - 1] + [last];
      if last in stopWords then rest
      else (SubsequenceSnoc(rest, tokens[..|tokens| - 1], last); rest + [last])
  }

  /** Stop words vanish entirely; every other token keeps all its
      occurrences. */
  lemma {:induction false} RemoveStopWordsCounts(tokens: Tokens, stopWords: Tokens, w: string)
    ensures Count(RemoveStopWords(tokens, stopWords), w) ==
      if w in stopWords then 0 else Count(tokens, w)
  {
    if tokens != [] {
      var init := tokens[..|tokens| - 1];
      var last := tokens[|tokens| - 1];
      assert tokens == init + [last];
      RemoveStopWordsCounts(init, stopWords, w);
      CountAppend(init, [last], w);
      if last !in stopWords {
        CountAppend(RemoveStopWords(init, stopWords), [last], w);
      }
    }
  }

  // ---------------------------------------------------------------------------
  // calculate_frequencies

  /** `{word: tokens.count(word) for word in set(tokens)}`. */
  function CalculateFrequencies(tokens: Tokens): (freq: map<string, nat>)
    ensures freq.Keys == set w | w in tokens
    ensures forall w :: w in freq ==> freq[w] == Count(tokens, w) && freq[w] >= 1
  {
    map w | w in tokens :: Count(tokens, w)
  }

  /** The sum of `freq[k]` over the keys `ks`. */
  function SumOver(freq: map<string, nat>, ks: Tokens): int
    requires forall k :: k in ks ==> k in freq
  {
    if ks == [] then 0 else freq[ks[0]] + SumOver(freq, ks[1..])
  }

  /** The sum of `Count(s, k)` over the keys `ks`. */
  function SumCounts(s: Tokens, ks: Tokens): int
  {
    if ks == [] then 0 else Count(s, ks[0]) + SumCounts(s, ks[1..])
  }

  lemma {:induction false} SumCountsFirst(s: Tokens, ks: Tokens)
    requires s != []
    ensures SumCounts(s, ks) == Count(ks, s[0]) + SumCounts(s[1..], ks)
  {
    if ks != [] {
      assert s == [s[0]] + s[1..];
      CountAppend([s[0]], s[1..], ks[0]);
      assert ks == [ks[0]] + ks[1..];
      CountAppend([ks[0]], ks[1..], s[0]);
      SumCountsFirst(s, ks[1..]);
    }
  }

  lemma {:induction false} CountOfDistinct(ks: Tokens, x: string)
    requires Distinct(ks) && x in ks
    ensures Count(ks, x) == 1
  {
    assert ks == [ks[0]] + ks[1..];
    CountAppend([ks[0]], ks[1..], x);
    if ks[0] == x {
      assert x !in ks[1..];
    } else {
      CountOfDistinct(ks[1..], x);
    }
  }

  lemma {:induction false} SumCountsIsLength(s: Tokens, ks: Tokens)
    requires Distinct(ks)
    requires forall w :: w in s ==> w in ks
    ensures SumCounts(s, ks) == |s|
  {
    if s == [] {
      SumCountsOfEmpty(ks);
    } else {
      SumCountsFirst(s, ks);
      CountOfDistinct(ks, s[0]);
      SumCountsIsLength(s[1..], ks);
    }
  }

  lemma {:induction false} SumCountsOfEmpty(ks: Tokens)
    ensures SumCounts([], ks) == 0
  {
    if ks != [] {
      SumCountsOfEmpty(ks[1..]);
    }
  }

  lemma {:induction false} SumOverFrequencies(tokens: Tokens, ks: Tokens)
    requires forall k :: k in ks ==> k in tokens
    ensures SumOver(CalculateFrequencies(tokens), ks) == SumCounts(tokens, ks)
  {
    if ks != [] {
      SumOverFrequencies(tokens, ks[1..]);
    }
  }

  /** Listing every distinct token once, the frequencies add up to the
      number of tokens. */
  lemma FrequenciesSumToLength(tokens: Tokens, ks: Tokens)
    requires Distinct(ks)
    requires forall k :: k in ks <==> k in tokens
    ensures SumOver(CalculateFrequencies(tokens), ks) == |tokens|
  {
    SumOverFrequencies(tokens, ks);
    SumCountsIsLength(tokens, ks);
  }

  // ---------------------------------------------------------------------------
  // get_top_n_words

  /** A dictionary entry: a word and its frequency. The dictionary itself is
      the sequence of its entries in iteration order. */
  type Entry = (string, int)

  /** Frequencies never increase along `s`. */
  predicate Descending(s: seq<Entry>) {
    forall i, j :: 0 <= i < j < |s| ==> s[i].1 >= s[j].1
  }

  /** The entries of `s` with frequency `f`, in order. */
  function WithFrequency(s: seq<Entry>, f: int): seq<Entry>
  {
    if s == [] then [] else (if s[0].1 == f then [s[0]] else []) + WithFrequency(s[1..], f)
  }

  /** Places `e` before the first entry whose frequency is not larger, so
      that `e` stays ahead of the entries that followed it with the same
      frequency. */
  function InsertByFrequency(e: Entry, sorted: seq<Entry>): (r: seq<Entry>)
    ensures |r| == |sorted| + 1
    ensures multiset(r) == multiset(sorted) + multiset{e}
    ensures forall x :: x in r <==> x == e || x in sorted
  {
    if sorted == [] || sorted[0].1 <= e.1 then [e] + sorted
    else
      assert sorted == [sorted[0]] + sorted[1..];
      [sorted[0]] + InsertByFrequency(e, sorted[1..])
  }

  lemma {:induction false} InsertKeepsDescending(e: Entry, sorted: seq<Entry>)
    requires Descending(sorted)
    ensures Descending(InsertByFrequency(e, sorted))
  {
    if sorted == [] || sorted[0].1 <= e.1 {
      var r := [e] + sorted;
      forall i, j | 0 <= i < j < |r| ensures r[i].1 >= r[j].1 {
        if i == 0 {
          assert r[j] == sorted[j - 1];
        }
      }
    } else {
      var rest := InsertByFrequency(e, sorted[1..]);
      InsertKeepsDescending(e, sorted[1..]);
      var r := [sorted[0]] + rest;
      forall i, j | 0 <= i < j < |r| ensures r[i].1 >= r[j].1 {
        if i == 0 {
          assert r[j] in rest;
          if r[j] != e {
            HeadDominates(sorted, r[j]);
          }
        } else {
          assert r[i] == rest[i - 1] && r[j] == rest[j - 1];
        }
      }
    }
  }

  /** The head of a descending list is at least as frequent as the rest. */
  lemma HeadDominates(sorted: seq<Entry>, x: Entry)
    requires Descending(sorted) && sorted != [] && x in sorted[1..]
    ensures x.1 <= sorted[0].1
  {
    var p :| 0 <= p < |sorted[1..]| && sorted[1..][p] == x;
    assert sorted[p + 1] == x;
  }

  /** `sorted(entries, key=frequency, reverse=True)`: a stable sort by
      descending frequency. */
  function SortByFrequency(entries: seq<Entry>): (r: seq<Entry>)
    ensures |r| == |entries|
    ensures multiset(r) == multiset(entries)
    ensures Descending(r)
  {
    if entries == [] then []
    else
      assert entries == [entries[0]] + entries[1..];
      InsertKeepsDescending(entries[0], SortByFrequency(entries[1..]));
      InsertByFrequency(entries[0], SortByFrequency(entries[1..]))
  }

  lemma {:induction false} InsertByFrequencyStable(e: Entry, sorted: seq<Entry>, f: int)
    ensures WithFrequency(InsertByFrequency(e, sorted), f) ==
      (if e.1 == f then [e] else []) + WithFrequency(sorted, f)
  {
    if !(sorted == [] || sorted[0].1 <= e.1) {
      var rest := InsertByFrequency(e, sorted[1..]);
      InsertByFrequencyStable(e, sorted[1..], f);
      WithFrequencyCons(sorted[0], rest, f);
      WithFrequencyCons(sorted[0], sorted[1..], f);
      assert sorted == [sorted[0]] + sorted[1..];
    } else {
      WithFrequencyCons(e, sorted, f);
    }
  }

  lemma WithFrequencyCons(x: Entry, s: seq<Entry>, f: int)
    ensures WithFrequency([x] + s, f) == (if x.1 == f then [x] else []) + WithFrequency(s, f)
  {
    assert ([x] + s)[1..] == s;
  }

  /** The sort is stable: entries of equal frequency keep their order. */
  lemma {:induction false} SortByFrequencyStable(entries: seq<Entry>, f: int)
    ensures WithFrequency(SortByFrequency(entries), f) == WithFrequency(entries, f)
  {
    if entries != [] {
      SortByFrequencyStable(entries[1..], f);
      InsertByFrequencyStable(entries[0], SortByFrequency(entries[1..]), f);
    }
  }

  /** The words of `entries`, in order. */
  function WordsOf(entries: seq<Entry>): (r: Tokens)
    ensures |r| == |entries|
    ensures forall i :: 0 <= i < |entries| ==> r[i] == entries[i].0
  {
    seq(|entries|, i requires 0 <= i < |entries| => entries[i].0)
  }

  /** `sorted(freq_dict, key=freq_dict.get, reverse=True)[:top_n]`. */
  function GetTopNWords(freq: seq<Entry>, topN: int): (r: Tokens)
    ensures topN >= 0 ==> |r| == Min(topN, |freq|)
    ensures topN < 0 ==> |r| == Max(0, |freq| + topN)
    ensures var sorted := SortByFrequency(freq);
      (forall i :: 0 <= i < |r| ==> r[i] == sorted[i].0) &&
      (forall i, j :: 0 <= i < |r| <= j < |sorted| ==> sorted[i].1 >= sorted[j].1)
  {
    var sorted := SortByFrequency(freq);
    TopOfDescending(sorted, topN);
    Slice(WordsOf(sorted), 0, topN)
  }

  /** A prefix of a descending list holds the largest frequencies. */
  lemma TopOfDescending(sorted: seq<Entry>, topN: int)
    requires Descending(sorted)
    ensures var r := Slice(WordsOf(sorted), 0, topN);
      (topN >= 0 ==> |r| == Min(topN, |sorted|)) &&
      (topN < 0 ==> |r| == Max(0, |sorted| + topN)) &&
      (forall i :: 0 <= i < |r| ==> r[i] == sorted[i].0) &&
      (forall i, j :: 0 <= i < |r| <= j < |sorted| ==> sorted[i].1 >= sorted[j].1)
  {
    var r := Slice(WordsOf(sorted), 0, topN);
    assert |r| <= |sorted|;
  }

  /** A word strictly more frequent than every other entry is the single
      top word. */
  lemma MostFrequentWordFirst(freq: seq<Entry>, k: nat)
    requires k < |freq|
    requires forall j :: 0 <= j < |freq| && j != k ==> freq[j].1 < freq[k].1
    ensures GetTopNWords(freq, 1) == [freq[k].0]
  {
    var sorted := SortByFrequency(freq);
    assert freq[k] in multiset(sorted);
    var p :| 0 <= p < |sorted| && sorted[p] == freq[k];
    assert sorted[0].1 >= freq[k].1;
    assert sorted[0] in multiset(freq);
    var j :| 0 <= j < |freq| && freq[j] == sorted[0];
    assert j == k;
  }

  /** `tokens = ['weather', 'sunny', 'man', 'happy', 'and', 'dog', 'happy']`
      with `top_n = 1` gives `['happy']`. */
  lemma TopWordExample()
    ensures GetTopNWords([("weather", 1), ("sunny", 1), ("man", 1), ("happy", 2), ("and", 1), ("dog", 1)], 1)
      == ["happy"]
  {
    MostFrequentWordFirst([("weather", 1), ("sunny", 1), ("man", 1), ("happy", 2), ("and", 1), ("dog", 1)], 3);
  }

  // ---------------------------------------------------------------------------
  // get_concordance

  /** The positions at which `word` occurs in `tokens`, ascending. */
  function Occurrences(tokens: Tokens, word: string): (idx: seq<nat>)
    ensures forall k :: 0 <= k < |idx| ==> idx[k] < |tokens| && tokens[idx[k]] == word
    ensures forall k, l :: 0 <= k < l < |idx| ==> idx[k] < idx[l]
    ensures forall i :: 0 <= i < |tokens| && tokens[i] == word ==> i in idx
  {
    if tokens == [] then []
    else
      var last := |tokens| - 1;
      Occurrences(tokens[..last], word) + (if tokens[last] == word then [last] else [])
  }

  /** `window` is the stretch of `tokens` that starts at `lo`. */
  predicate StretchAt(tokens: Tokens, window: Tokens, lo: nat) {
    lo + |window| <= |tokens| && window == tokens[lo..lo + |window|]
  }

  /** `window` is a contiguous stretch of `tokens` covering position `pos`. */
  predicate Around(tokens: Tokens, window: Tokens, pos: nat) {
    exists lo: nat :: lo <= pos < lo + |window| && StretchAt(tokens, window, lo)
  }

  /** The argument checks that make `get_concordance` return `[]`. */
  predicate ConcordanceRejected(tokens: Tokens, word: string, left: int, right: int) {
    word == [] || word !in tokens || left < 0 || right < 0 || (left == 0 && right == 0)
  }

  /** Every window is cut at the start of the text, because the first
      occurrence has fewer than `left` tokens before it. */
  predicate ClippedLeft(tokens: Tokens, word: string, left: int)
    requires word in tokens
  {
    Occurrences(tokens, word)[0] < left
  }

  /** Every window runs to the end of the text, because the last occurrence
      has fewer than `right` tokens after it (counting one past the end). */
  predicate ClippedRight(tokens: Tokens, word: string, right: int)
    requires word in tokens
  {
    var idx := Occurrences(tokens, word);
    idx[|idx| - 1] + right > |tokens|
  }

  /** `window` is a prefix of `tokens`. */
  predicate FromStart(tokens: Tokens, window: Tokens) {
    |window| <= |tokens| && window == tokens[..|window|]
  }

  /** `window` is `tokens[0:pos + 1 + right]`: it starts at the beginning of
      the text and ends `right` tokens after position `pos`, or at the end of
      the text. */
  predicate PrefixThrough(tokens: Tokens, window: Tokens, pos: nat, right: nat) {
    window == tokens[..Min(pos + 1 + right, |tokens|)]
  }

  /** `window` is a suffix of `tokens`. */
  predicate ToEnd(tokens: Tokens, window: Tokens) {
    |window| <= |tokens| && window == tokens[|tokens| - |window|..]
  }

  /** `window` is `tokens[pos - left:pos + 1 + right]` with `pos - left` not
      negative: `left` tokens before position `pos`, up to `right` after it,
      and the token at `pos` at index `left` of the window. */
  predicate Centred(tokens: Tokens, window: Tokens, pos: nat, left: nat, right: nat) {
    left <= pos < |tokens| &&
    window == tokens[pos - left..Min(pos + 1 + right, |tokens|)] &&
    |window| > left && window[left] == tokens[pos]
  }

  /** One window of context per occurrence of `word`, in text order, each a
      contiguous stretch of the text around its occurrence. Whether windows
      are cut at either end of the text is decided once, from the first and
      last occurrence, and applied to every window (`ConcordanceShape`). */
  function GetConcordance(tokens: Tokens, word: string, left: int, right: int): (r: seq<Tokens>)
    ensures ConcordanceRejected(tokens, word, left, right) ==> r == []
    ensures !ConcordanceRejected(tokens, word, left, right) ==>
      var idx := Occurrences(tokens, word);
      |r| == |idx| && forall k :: 0 <= k < |r| ==> word in r[k] && Around(tokens, r[k], idx[k])
  {
    if word == [] then []
    else
      var idx := Occurrences(tokens, word);
      if |idx| == 0 || right < 0 || left < 0 then []
      else if right == 0 && left == 0 then []
      else
        var right' := if PyAt(idx, -1) + right > |tokens| then |tokens| else right;
        OccurrencesFit(tokens, word, idx, left, right');
        if idx[0] - left < 0 then LeftWindows(tokens, word, idx, right')
        else InnerWindows(tokens, word, idx, left, right')
  }

  /** Positions are ascending, so the first and last occurrence bound all
      the others. */
  lemma OccurrencesFit(tokens: Tokens, word: string, idx: seq<nat>, left: nat, right: nat)
    requires idx == Occurrences(tokens, word) && |idx| > 0
    requires right == |tokens| || idx[|idx| - 1] + right <= |tokens|
    ensures WindowsFit(tokens, word, idx, right)
    ensures idx[0] >= left ==> forall k :: 0 <= k < |idx| ==> idx[k] >= left
  {
    forall k | 0 <= k < |idx|
      ensures idx[0] <= idx[k] <= idx[|idx| - 1]
    {
      if 0 < k {
        assert idx[0] < idx[k];
      }
      if k < |idx| - 1 {
        assert idx[k] < idx[|idx| - 1];
      }
    }
  }

  /** The right size `get_concordance` settles on: the whole text's length
      when the last occurrence has fewer than `right` tokens after it
      (counting one past the end), `right` otherwise. */
  function SettledRight(tokens: Tokens, word: string, right: nat): (r: nat)
    requires word in tokens
    ensures ClippedRight(tokens, word, right) ==> r == |tokens|
    ensures !ClippedRight(tokens, word, right) ==> r == right
  {
    var idx := Occurrences(tokens, word);
    if idx[|idx| - 1] + right > |tokens| then |tokens| else right
  }

  lemma ConcordanceWindowsFit(tokens: Tokens, word: string, left: int, right: int)
    requires !ConcordanceRejected(tokens, word, left, right)
    ensures var idx := Occurrences(tokens, word);
      WindowsFit(tokens, word, idx, SettledRight(tokens, word, right)) &&
      (idx[0] >= left ==> forall k :: 0 <= k < |idx| ==> idx[k] >= left)
  {
    var idx := Occurrences(tokens, word);
    OccurrencesFit(tokens, word, idx, left, SettledRight(tokens, word, right));
  }

  lemma ConcordanceFromStartWindows(tokens: Tokens, word: string, left: int, right: int)
    requires !ConcordanceRejected(tokens, word, left, right)
    requires ClippedLeft(tokens, word, left)
    ensures var idx, right' := Occurrences(tokens, word), SettledRight(tokens, word, right);
      WindowsFit(tokens, word, idx, right') &&
      GetConcordance(tokens, word, left, right) == LeftWindows(tokens, word, idx, right')
  {
    ConcordanceWindowsFit(tokens, word, left, right);
    ConcordanceIsFromStart(tokens, word, left, right, Occurrences(tokens, word), SettledRight(tokens, word, right));
  }

  lemma ConcordanceIsFromStart(tokens: Tokens, word: string, left: int, right: int, idx: seq<nat>, right': nat)
    requires !ConcordanceRejected(tokens, word, left, right) && ClippedLeft(tokens, word, left)
    requires idx == Occurrences(tokens, word) && right' == SettledRight(tokens, word, right)
    requires WindowsFit(tokens, word, idx, right')
    ensures GetConcordance(tokens, word, left, right) == LeftWindows(tokens, word, idx, right')
  {
    assert right' == if PyAt(idx, -1) + right > |tokens| then |tokens| else right;
  }

  lemma ConcordanceInnerWindows(tokens: Tokens, word: string, left: int, right: int)
    requires !ConcordanceRejected(tokens, word, left, right)
    requires !ClippedLeft(tokens, word, left)
    ensures var idx, right' := Occurrences(tokens, word), SettledRight(tokens, word, right);
      WindowsFit(tokens, word, idx, right') &&
      (forall k :: 0 <= k < |idx| ==> idx[k] >= left) &&
      GetConcordance(tokens, word, left, right) == InnerWindows(tokens, word, idx, left, right')
  {
    var idx := Occurrences(tokens, word);
    ConcordanceWindowsFit(tokens, word, left, right);
    ConcordanceIsInner(tokens, word, left, right, idx, SettledRight(tokens, word, right));
  }

  lemma ConcordanceIsInner(tokens: Tokens, word: string, left: int, right: int, idx: seq<nat>, right': nat)
    requires !ConcordanceRejected(tokens, word, left, right) && !ClippedLeft(tokens, word, left)
    requires idx == Occurrences(tokens, word) && right' == SettledRight(tokens, word, right)
    requires WindowsFit(tokens, word, idx, right') && forall k :: 0 <= k < |idx| ==> idx[k] >= left
    ensures GetConcordance(tokens, word, left, right) == InnerWindows(tokens, word, idx, left, right')
  {
    assert right' == if PyAt(idx, -1) + right > |tokens| then |tokens| else right;
  }

  /** When the first occurrence has fewer than `left` tokens before it,
      every window starts at the beginning of the text and ends `right`
      tokens after its occurrence, `right` as settled for the whole call. */
  lemma ConcordanceClippedLeft(tokens: Tokens, word: string, left: int, right: int)
    requires !ConcordanceRejected(tokens, word, left, right)
    requires ClippedLeft(tokens, word, left)
    ensures var r := GetConcordance(tokens, word, left, right);
      forall k :: 0 <= k < |r| ==> FromStart(tokens, r[k])
    ensures var r, idx := GetConcordance(tokens, word, left, right), Occurrences(tokens, word);
      |r| == |idx| && forall k :: 0 <= k < |r| ==> PrefixThrough(tokens, r[k], idx[k], SettledRight(tokens, word, right))
  {
    ConcordanceFromStartWindows(tokens, word, left, right);
  }

  /** When the last occurrence has fewer than `right` tokens after it
      (counting one past the end), every window runs to the end of the
      text. */
  lemma ConcordanceClippedRight(tokens: Tokens, word: string, left: int, right: int)
    requires !ConcordanceRejected(tokens, word, left, right)
    requires ClippedRight(tokens, word, right)
    ensures var r := GetConcordance(tokens, word, left, right);
      forall k :: 0 <= k < |r| ==> ToEnd(tokens, r[k])
  {
    if ClippedLeft(tokens, word, left) {
      ConcordanceFromStartWindows(tokens, word, left, right);
    } else {
      ConcordanceInnerWindows(tokens, word, left, right);
    }
  }

  /** Otherwise every window spans `left` tokens before its occurrence to
      `right` tokens after it, and the word sits at index `left`. */
  lemma ConcordanceCentred(tokens: Tokens, word: string, left: int, right: int)
    requires !ConcordanceRejected(tokens, word, left, right)
    requires !ClippedLeft(tokens, word, left) && !ClippedRight(tokens, word, right)
    ensures var r, idx := GetConcordance(tokens, word, left, right), Occurrences(tokens, word);
      forall k :: 0 <= k < |r| ==> Centred(tokens, r[k], idx[k], left, right) && r[k][left] == word
  {
    ConcordanceInnerWindows(tokens, word, left, right);
  }

  /** Every position in `idx` holds `word`, and the right size either
      reaches the end of the text or keeps every window inside it (counting
      one past the end). */
  predicate WindowsFit(tokens: Tokens, word: string, idx: seq<nat>, right: nat) {
    forall k :: 0 <= k < |idx| ==>
      idx[k] < |tokens| && tokens[idx[k]] == word && (right == |tokens| || idx[k] + right <= |tokens|)
  }

  /** `[tokens[0:ind + 1 + right] for ind in idx]`. */
  function LeftWindows(tokens: Tokens, word: string, idx: seq<nat>, right: nat): (r: seq<Tokens>)
    requires WindowsFit(tokens, word, idx, right)
    ensures |r| == |idx|
    ensures forall k :: 0 <= k < |r| ==> word in r[k] && Around(tokens, r[k], idx[k])
    ensures forall k :: 0 <= k < |r| ==> FromStart(tokens, r[k])
    ensures forall k :: 0 <= k < |r| ==> PrefixThrough(tokens, r[k], idx[k], right)
    ensures right == |tokens| ==> forall k :: 0 <= k < |r| ==> ToEnd(tokens, r[k])
  {
    seq(|idx|, k requires 0 <= k < |idx| => LeftWindow(tokens, word, idx[k], right))
  }

  /** `[tokens[ind - left:ind + 1 + right] for ind in idx]`, when no
      occurrence lies within `left` tokens of the start. */
  function InnerWindows(tokens: Tokens, word: string, idx: seq<nat>, left: nat, right: nat)
    : (r: seq<Tokens>)
    requires WindowsFit(tokens, word, idx, right)
    requires forall k :: 0 <= k < |idx| ==> idx[k] >= left
    ensures |r| == |idx|
    ensures forall k :: 0 <= k < |r| ==> word in r[k] && Around(tokens, r[k], idx[k])
    ensures forall k :: 0 <= k < |r| ==> Centred(tokens, r[k], idx[k], left, right)
    ensures right == |tokens| ==> forall k :: 0 <= k < |r| ==> ToEnd(tokens, r[k])
  {
    seq(|idx|, k requires 0 <= k < |idx| => InnerWindow(tokens, word, idx[k], left, right))
  }

  /** `tokens[0:pos + 1 + right]`. */
  function LeftWindow(tokens: Tokens, word: string, pos: nat, right: nat): (w: Tokens)
    requires pos < |tokens| && tokens[pos] == word
    requires right == |tokens| || pos + right <= |tokens|
    ensures PrefixThrough(tokens, w, pos, right)
    ensures FromStart(tokens, w)
    ensures right == |tokens| ==> ToEnd(tokens, w)
    ensures Around(tokens, w, pos) && word in w
  {
    var hi := Min(pos + 1 + right, |tokens|);
    assert ClipBound(0, |tokens|) == 0 < hi == ClipBound(pos + 1 + right, |tokens|);
    var w := Slice(tokens, 0, pos + 1 + right);
    assert w == tokens[..hi];
    assert w[pos] == word;
    assert right == |tokens| ==> w == tokens && tokens[0..] == tokens;
    assert StretchAt(tokens, w, 0);
    w
  }

  /** `tokens[pos - left:pos + 1 + right]`. */
  function InnerWindow(tokens: Tokens, word: string, pos: nat, left: nat, right: nat): (w: Tokens)
    requires left <= pos < |tokens| && tokens[pos] == word
    requires right == |tokens| || pos + right <= |tokens|
    ensures Centred(tokens, w, pos, left, right)
    ensures right == |tokens| ==> ToEnd(tokens, w)
    ensures Around(tokens, w, pos) && word in w
  {
    var hi := Min(pos + 1 + right, |tokens|);
    assert ClipBound(pos - left, |tokens|) == pos - left < hi == ClipBound(pos + 1 + right, |tokens|);
    var w := Slice(tokens, pos - left, pos + 1 + right);
    assert w == tokens[pos - left..hi];
    assert w[left] == word;
    assert right == |tokens| ==> w == tokens[pos - left..];
    assert StretchAt(tokens, w, pos - left);
    w
  }

  // ---------------------------------------------------------------------------
  // get_adjacent_words

  /** Every window of a concordance holds the word. */
  predicate AllContain(conc: seq<Tokens>, word: string) {
    forall k :: 0 <= k < |conc| ==> word in conc[k]
  }

  lemma ConcordanceHoldsWord(tokens: Tokens, word: string, left: int, right: int)
    ensures AllContain(GetConcordance(tokens, word, left, right), word)
  {
  }

  /** The ends of one window: its last token when `leftN` is 0, its first
      when `rightN` is 0, both otherwise. */
  function Ends(w: Tokens, leftN: int, rightN: int): (e: Tokens)
    requires w != []
    ensures |e| == (if leftN == 0 || rightN == 0 then 1 else 2)
    ensures forall x :: x in e ==> x in w
  {
    if leftN == 0 then [w[|w| - 1]]
    else if rightN == 0 then [w[0]]
    else [w[0], w[|w| - 1]]
  }

  /** The ends of each concordance window. */
  function GetAdjacentWords(tokens: Tokens, word: string, leftN: int, rightN: int): (r: seq<Tokens>)
    ensures var conc := GetConcordance(tokens, word, leftN, rightN);
      |r| == |conc| &&
      forall k :: 0 <= k < |r| ==> r[k] == Ends(conc[k], leftN, rightN)
  {
    var conc := GetConcordance(tokens, word, leftN, rightN);
    ConcordanceHoldsWord(tokens, word, leftN, rightN);
    seq(|conc|, k requires 0 <= k < |conc| => Ends(conc[k], leftN, rightN))
  }

  /** The tokens `leftN` before and `rightN` after position `pos` (the last
      token of the text when fewer than `rightN` follow), as
      `get_adjacent_words` reports them. */
  function AdjacentAt(tokens: Tokens, pos: nat, leftN: nat, rightN: nat): Tokens
    requires leftN <= pos < |tokens|
  {
    var before, after := tokens[pos - leftN], tokens[Min(pos + rightN, |tokens| - 1)];
    if leftN == 0 then [after] else if rightN == 0 then [before] else [before, after]
  }

  lemma CentredEnds(tokens: Tokens, w: Tokens, pos: nat, leftN: nat, rightN: nat)
    requires Centred(tokens, w, pos, leftN, rightN)
    ensures Ends(w, leftN, rightN) == AdjacentAt(tokens, pos, leftN, rightN)
  {
    assert w[0] == tokens[pos - leftN];
    assert w[|w| - 1] == tokens[Min(pos + rightN, |tokens| - 1)];
  }

  /** Away from the ends of the text, the adjacent words are the tokens
      `leftN` before and `rightN` after each occurrence. */
  lemma AdjacentWordsAtDistance(tokens: Tokens, word: string, leftN: int, rightN: int)
    requires !ConcordanceRejected(tokens, word, leftN, rightN)
    requires !ClippedLeft(tokens, word, leftN) && !ClippedRight(tokens, word, rightN)
    ensures var r, idx := GetAdjacentWords(tokens, word, leftN, rightN), Occurrences(tokens, word);
      |r| == |idx| &&
      forall k :: 0 <= k < |r| ==>
        leftN <= idx[k] && r[k] == AdjacentAt(tokens, idx[k], leftN, rightN)
  {
    var conc := GetConcordance(tokens, word, leftN, rightN);
    var idx := Occurrences(tokens, word);
    ConcordanceCentred(tokens, word, leftN, rightN);
    forall k | 0 <= k < |conc|
      ensures leftN <= idx[k] && Ends(conc[k], leftN, rightN) == AdjacentAt(tokens, idx[k], leftN, rightN)
    {
      CentredEnds(tokens, conc[k], idx[k], leftN, rightN);
    }
  }

  // ---------------------------------------------------------------------------
  // sort_concordance

  datatype Option<T> = None | Some(value: T)

  /** The outcome of `sort_concordance`: the sorted windows, or the
      IndexError raised when a window has no token after the word. */
  datatype Sorted = Windows(windows: seq<Tokens>) | IndexError

  /** `s.index(x)`: the first position of `x`. */
  function IndexOf(s: Tokens, x: string): (i: nat)
    requires x in s
    ensures i < |s| && s[i] == x && x !in s[..i]
  {
    if s[0] == x then 0 else 1 + IndexOf(s[1..], x)
  }

  /** The key a window is filed under: its first token for a left sort, the
      token after the first occurrence of the word for a right sort; `None`
      where Python raises IndexError. */
  function SortKey(window: Tokens, word: string, leftSort: bool): (key: Option<string>)
    requires word in window
    ensures leftSort ==> key.Some?
    ensures key.Some? ==> key.value in window
    ensures !leftSort ==> (key.None? <==> IndexOf(window, word) == |window| - 1)
  {
    if leftSort then Some(window[0])
    else
      var i := IndexOf(window, word) + 1;
      if i < |window| then Some(window[i]) else None
  }

  /** The key of every window, or `None` as soon as one has no key. */
  function WindowKeys(conc: seq<Tokens>, word: string, leftSort: bool): (keys: Option<seq<string>>)
    requires AllContain(conc, word)
    ensures keys.None? <==> exists k :: 0 <= k < |conc| && SortKey(conc[k], word, leftSort).None?
    ensures keys.Some? ==>
      |keys.value| == |conc| &&
      forall k :: 0 <= k < |conc| ==> SortKey(conc[k], word, leftSort) == Some(keys.value[k])
  {
    if conc == [] then Some([])
    else
      var first := SortKey(conc[0], word, leftSort);
      var rest := WindowKeys(conc[1..], word, leftSort);
      assert forall k :: 1 <= k < |conc| ==> conc[k] == conc[1..][k - 1];
      if first.None? || rest.None? then None
      else Some([first.value] + rest.value)
  }

  /** The last position holding `key`. */
  function LastIndexOf(keys: seq<string>, key: string): (j: nat)
    requires key in keys
    ensures j < |keys| && keys[j] == key
    ensures forall j' :: j < j' < |keys| ==> keys[j'] != key
  {
    if keys[|keys| - 1] == key then |keys| - 1 else LastIndexOf(keys[..|keys| - 1], key)
  }

  /** `{keys[j]: conc[j] for j in ...}`: later windows overwrite earlier
      ones filed under the same key. */
  function FileByKey(conc: seq<Tokens>, keys: seq<string>): (d: map<string, Tokens>)
    requires |keys| == |conc|
    ensures forall key :: key in d <==> key in keys
    ensures forall key :: key in d ==> d[key] == conc[LastIndexOf(keys, key)]
  {
    if conc == [] then map[]
    else
      var n := |conc| - 1;
      var d := FileByKey(conc[..n], keys[..n]);
      FileByKeyStep(conc, keys, d);
      d[keys[n] := conc[n]]
  }

  lemma FileByKeyStep(conc: seq<Tokens>, keys: seq<string>, d: map<string, Tokens>)
    requires |keys| == |conc| > 0
    requires forall key :: key in d <==> key in keys[..|keys| - 1]
    requires forall key :: key in d ==> d[key] == conc[LastIndexOf(keys[..|keys| - 1], key)]
    ensures var d' := d[keys[|keys| - 1] := conc[|keys| - 1]];
      (forall key :: key in d' <==> key in keys) &&
      (forall key :: key in d' ==> d'[key] == conc[LastIndexOf(keys, key)])
  {
    var n := |keys| - 1;
    assert keys == keys[..n] + [keys[n]];
    forall key | key in d && key != keys[n]
      ensures LastIndexOf(keys, key) == LastIndexOf(keys[..n], key)
    {
    }
  }

  /** No key is repeated and each is below the next. */
  predicate StrictlyAscending(s: seq<string>) {
    forall i, j :: 0 <= i < j < |s| ==> StrLess(s[i], s[j])
  }

  /** Adds `key` to an ascending list of distinct keys, unless present. */
  function InsertKey(key: string, sorted: seq<string>): (r: seq<string>)
    ensures forall x :: x in r <==> x in sorted || x == key
  {
    if sorted == [] then [key]
    else if key == sorted[0] then sorted
    else if StrLess(key, sorted[0]) then [key] + sorted
    else [sorted[0]] + InsertKey(key, sorted[1..])
  }

  lemma {:induction false} InsertKeyAscending(key: string, sorted: seq<string>)
    requires StrictlyAscending(sorted)
    ensures StrictlyAscending(InsertKey(key, sorted))
  {
    if sorted == [] || key == sorted[0] {
    } else if StrLess(key, sorted[0]) {
      var r := [key] + sorted;
      forall i, j | 0 <= i < j < |r| ensures StrLess(r[i], r[j]) {
        if i == 0 && j > 1 {
          StrLessTransitive(key, sorted[0], sorted[j - 1]);
        }
      }
    } else {
      StrLessTotal(key, sorted[0]);
      var rest := InsertKey(key, sorted[1..]);
      InsertKeyAscending(key, sorted[1..]);
      var r := [sorted[0]] + rest;
      forall i, j | 0 <= i < j < |r| ensures StrLess(r[i], r[j]) {
        if i == 0 {
          assert r[j] in rest;
        } else {
          assert r[i] == rest[i - 1] && r[j] == rest[j - 1];
        }
      }
    }
  }

  /** `sorted(set(keys))`: the distinct keys in ascending order. */
  function SortKeys(keys: seq<string>): (r: seq<string>)
    ensures StrictlyAscending(r)
    ensures forall x :: x in r <==> x in keys
  {
    if keys == [] then []
    else
      var rest := SortKeys(keys[1..]);
      InsertKeyAscending(keys[0], rest);
      assert forall x :: x in keys <==> x == keys[0] || x in keys[1..];
      InsertKey(keys[0], rest)
  }

  /** There is only one ascending listing of a set of keys, so the order in
      which the keys were filed does not matter. */
  lemma {:induction false} AscendingListingUnique(a: seq<string>, b: seq<string>)
    requires StrictlyAscending(a) && StrictlyAscending(b)
    requires forall x :: x in a <==> x in b
    ensures a == b
  {
    if a != [] {
      assert a[0] in b;
    }
    if b != [] {
      assert b[0] in a;
    }
    if a != [] && b != [] {
      assert a[0] in a && b[0] in b;
      var i :| 0 <= i < |a| && a[i] == b[0];
      var j :| 0 <= j < |b| && b[j] == a[0];
      StrLessIrreflexive(a[0]);
      StrLessIrreflexive(b[0]);
      if 0 < i && 0 < j {
        StrLessTransitive(a[0], a[i], a[0]);
      }
      assert i == 0 || j == 0;
      assert a[0] == b[0];
      forall x ensures x in a[1..] <==> x in b[1..] {
        if x in a[1..] {
          var p :| 1 <= p < |a| && a[p] == x;
          assert x in b && x != b[0];
        }
        if x in b[1..] {
          var p :| 1 <= p < |b| && b[p] == x;
          assert x in a && x != a[0];
        }
      }
      AscendingListingUnique(a[1..], b[1..]);
      assert a == [a[0]] + a[1..] && b == [b[0]] + b[1..];
    }
  }

  /** `get_concordance` after the size on the side not used for sorting has
      been raised to 0 if negative. */
  function ClampedConcordance(tokens: Tokens, word: string, left: int, right: int, leftSort: bool)
    : (conc: seq<Tokens>)
    ensures AllContain(conc, word)
  {
    var left' := if left < 0 && !leftSort then 0 else left;
    var right' := if right < 0 && leftSort then 0 else right;
    ConcordanceHoldsWord(tokens, word, left', right');
    GetConcordance(tokens, word, left', right')
  }

  /** The size on the side not used for sorting is raised to 0 when
      negative, so it cannot reject the call; a negative size on the side
      used for sorting still makes `get_concordance` return nothing. */
  lemma SortConcordanceClamp(tokens: Tokens, word: string, left: int, right: int)
    ensures left < 0 ==>
      SortConcordance(tokens, word, left, right, false) == SortConcordance(tokens, word, 0, right, false)
    ensures right < 0 ==>
      SortConcordance(tokens, word, left, right, true) == SortConcordance(tokens, word, left, 0, true)
    ensures left < 0 ==> SortConcordance(tokens, word, left, right, true) == Windows([])
    ensures right < 0 ==> SortConcordance(tokens, word, left, right, false) == Windows([])
  {
  }

  /** No later window is filed under the same key as window `k`. */
  predicate LastOfKey(conc: seq<Tokens>, word: string, leftSort: bool, k: nat)
    requires AllContain(conc, word) && k < |conc|
  {
    forall k' :: k < k' < |conc| ==> SortKey(conc[k'], word, leftSort) != SortKey(conc[k], word, leftSort)
  }

  /** Every window has a key, and the keys ascend strictly. */
  predicate AscendingKeys(ws: seq<Tokens>, word: string, leftSort: bool) {
    (forall i :: 0 <= i < |ws| ==> word in ws[i] && SortKey(ws[i], word, leftSort).Some?) &&
    forall i, j :: 0 <= i < j < |ws| ==>
      StrLess(SortKey(ws[i], word, leftSort).value, SortKey(ws[j], word, leftSort).value)
  }

  /** `ws` takes its windows from `conc`, and keeps the last one filed
      under each key. */
  predicate KeepsLastOfEachKey(conc: seq<Tokens>, ws: seq<Tokens>, word: string, leftSort: bool)
    requires AllContain(conc, word)
  {
    (forall i :: 0 <= i < |ws| ==> ws[i] in conc) &&
    forall k :: 0 <= k < |conc| && LastOfKey(conc, word, leftSort, k) ==> conc[k] in ws
  }

  /** The concordance windows filed by key, one per key (the last one filed
      under it), listed by ascending key; IndexError when a window has no
      key. */
  function SortConcordance(tokens: Tokens, word: string, left: int, right: int, leftSort: bool)
    : (r: Sorted)
    ensures var conc := ClampedConcordance(tokens, word, left, right, leftSort);
      (conc == [] ==> r == Windows([])) &&
      (r.IndexError? <==> exists k :: 0 <= k < |conc| && SortKey(conc[k], word, leftSort).None?) &&
      (r.Windows? ==>
        AscendingKeys(r.windows, word, leftSort) && KeepsLastOfEachKey(conc, r.windows, word, leftSort))
  {
    var conc := ClampedConcordance(tokens, word, left, right, leftSort);
    if |conc| == 0 then Windows([])
    else
      match WindowKeys(conc, word, leftSort)
      case None => IndexError
      case Some(keys) =>
        var ws := SortedWindows(conc, word, leftSort, keys);
        Windows(ws)
  }

  /** The windows filed under `keys`, listed by ascending key. */
  function SortedWindows(conc: seq<Tokens>, word: string, leftSort: bool, keys: seq<string>)
    : (ws: seq<Tokens>)
    requires AllContain(conc, word)
    requires WindowKeys(conc, word, leftSort) == Some(keys)
    ensures AscendingKeys(ws, word, leftSort) && KeepsLastOfEachKey(conc, ws, word, leftSort)
  {
    var d := FileByKey(conc, keys);
    var order := SortKeys(keys);
    var ws := seq(|order|, i requires 0 <= i < |order| => d[order[i]]);
    SortedWindowsKeys(conc, word, leftSort, keys, d, order, ws);
    SortedWindowsComplete(conc, word, leftSort, keys, d, order, ws);
    ws
  }

  lemma SortedWindowsKeys(conc: seq<Tokens>, word: string, leftSort: bool, keys: seq<string>,
                          d: map<string, Tokens>, order: seq<string>, ws: seq<Tokens>)
    requires AllContain(conc, word)
    requires WindowKeys(conc, word, leftSort) == Some(keys)
    requires d == FileByKey(conc, keys) && order == SortKeys(keys)
    requires |ws| == |order| && forall i :: 0 <= i < |order| ==> order[i] in d && ws[i] == d[order[i]]
    ensures AscendingKeys(ws, word, leftSort)
    ensures forall i :: 0 <= i < |ws| ==> ws[i] in conc
  {
    forall i | 0 <= i < |ws|
      ensures ws[i] in conc && word in ws[i] && SortKey(ws[i], word, leftSort) == Some(order[i])
    {
      var j := LastIndexOf(keys, order[i]);
      assert ws[i] == conc[j];
    }
  }

  lemma SortedWindowsComplete(conc: seq<Tokens>, word: string, leftSort: bool, keys: seq<string>,
                              d: map<string, Tokens>, order: seq<string>, ws: seq<Tokens>)
    requires AllContain(conc, word)
    requires WindowKeys(conc, word, leftSort) == Some(keys)
    requires d == FileByKey(conc, keys) && order == SortKeys(keys)
    requires |ws| == |order| && forall i :: 0 <= i < |order| ==> order[i] in d && ws[i] == d[order[i]]
    ensures forall k :: 0 <= k < |conc| && LastOfKey(conc, word, leftSort, k) ==> conc[k] in ws
  {
    forall k | 0 <= k < |conc| && LastOfKey(conc, word, leftSort, k)
      ensures conc[k] in ws
    {
      var key := keys[k];
      assert key in keys;
      var j := LastIndexOf(keys, key);
      assert SortKey(conc[j], word, leftSort) == Some(keys[j]);
      assert SortKey(conc[k], word, leftSort) == Some(key);
      assert j == k;
      assert key in order;
      var i :| 0 <= i < |order| && order[i] == key;
      assert ws[i] == conc[k];
    }
  }
}
