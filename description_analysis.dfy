/**
 * Job-description analysis: turning the description column into a list of
 * word tokens, and counting words or vocabulary terms in that list.
 *
 * The NLTK tokenizer and the English stopword list are foreign code; they
 * are parameters here (`tokenize`, `stopWords`).
 */
module DescriptionAnalysis {
  import opened Text
  import opened Sequences

  // ---------------------------------------------------------------------
  // process_data_frame
  // ---------------------------------------------------------------------

  /** Characters that survive `re.sub(r'[^\w\s]', '', text)`. */
  predicate IsWordOrSpace(c: char) { IsWordChar(c) || IsSpace(c) }

  /** Characters that survive `re.sub(r'\d+', '', text)`. */
  predicate IsNotDigit(c: char) { !IsDigit(c) }

  /**
   * Lower-casing, then removal of every character that is neither a word
   * character nor white space, then removal of every run of digits. What is
   * left is lower-case letters, underscores and white space.
   */
  function NormalizeText(text: string): (t: string)
    ensures |t| <= |text|
    ensures forall i :: 0 <= i < |t| ==> IsLower(t[i]) || t[i] == '_' || IsSpace(t[i])
  {
    var lowered := Lower(text);
    var words := Filter(lowered, IsWordOrSpace);
    var letters := Filter(words, IsNotDigit);
    assert forall i :: 0 <= i < |letters| ==> letters[i] in lowered;
    letters
  }

  /** Normalising one character: it is kept, lower-cased, exactly when it is
      a letter, an underscore or white space. */
  lemma NormalizeChar(c: char)
    ensures NormalizeText([c]) == if IsUpper(c) || IsLower(c) || c == '_' || IsSpace(c) then [LowerChar(c)] else []
  {
    assert Lower([c]) == [LowerChar(c)];
  }

  /** Normalisation works character by character, so it distributes over concatenation. */
  lemma NormalizeAppend(a: string, b: string)
    ensures NormalizeText(a + b) == NormalizeText(a) + NormalizeText(b)
  {
    LowerAppend(a, b);
    FilterAppend(Lower(a), Lower(b), IsWordOrSpace);
    FilterAppend(Filter(Lower(a), IsWordOrSpace), Filter(Lower(b), IsWordOrSpace), IsNotDigit);
  }

  /** Normalised text is left alone by a second normalisation. */
  lemma NormalizeIdempotent(text: string)
    ensures NormalizeText(NormalizeText(text)) == NormalizeText(text)
  {
    var t := NormalizeText(text);
    LowerNoUpper(t);
    FilterAllKept(t, IsWordOrSpace);
    FilterAllKept(t, IsNotDigit);
  }

  function NormalizeEach(texts: seq<string>): (r: seq<string>)
    ensures |r| == |texts|
    ensures forall i :: 0 <= i < |r| ==> r[i] == NormalizeText(texts[i])
  {
    seq(|texts|, i requires 0 <= i < |texts| => NormalizeText(texts[i]))
  }

  /**
   * Joining the descriptions with one space and then normalising gives the
   * normalised descriptions joined with one space: the separator survives,
   * so the last word of one description never runs into the first word of
   * the next.
   */
  lemma {:induction false} NormalizeJoin(descriptions: seq<string>)
    ensures NormalizeText(JoinWith(" ", descriptions)) == JoinWith(" ", NormalizeEach(descriptions))
    decreases |descriptions|
  {
    if |descriptions| == 0 {
    } else if |descriptions| == 1 {
    } else {
      var rest := descriptions[1..];
      NormalizeJoin(rest);
      NormalizeAppend(descriptions[0] + " ", JoinWith(" ", rest));
      NormalizeAppend(descriptions[0], " ");
      NormalizeChar(' ');
      assert NormalizeEach(descriptions)[1..] == NormalizeEach(rest);
    }
  }

  /** The text handed to the tokenizer. */
  function CleanedText(descriptions: seq<string>): string {
    NormalizeText(JoinWith(" ", descriptions))
  }

  /**
   * `process_data_frame`: tokenize the cleaned text and drop the stopwords.
   * The result keeps the tokenizer's order, holds every occurrence of every
   * other token, and no stopword.
   */
  function ProcessDataFrame(descriptions: seq<string>, tokenize: string -> seq<string>, stopWords: set<string>)
    : (words: seq<string>)
    ensures forall i :: 0 <= i < |words| ==> words[i] !in stopWords
    ensures IsSubsequence(words, tokenize(CleanedText(descriptions)))
    ensures forall w :: Count(words, w) == if w in stopWords then 0 else Count(tokenize(CleanedText(descriptions)), w)
  {
    var tokens := tokenize(CleanedText(descriptions));
    var keep := (w: string) => w !in stopWords;
    FilterIsSubsequence(tokens, keep);
    forall w ensures Count(Filter(tokens, keep), w) == if w in stopWords then 0 else Count(tokens, w) {
      FilterCount(tokens, keep, w);
    }
    Filter(tokens, keep)
  }

  // ---------------------------------------------------------------------
  // top_words_counter
  // ---------------------------------------------------------------------

  /** A word's rank key: how often it occurs in `words`. */
  function ByCount(words: seq<string>): string -> int {
    w => Count(words, w)
  }

  /** A word's tie-break key: where it first occurs in `words`. */
  function FirstSeen(words: seq<string>): string -> int {
    w => IndexOf(words, w)
  }

  /**
   * The distinct words of `words`, most frequent first, ties in order of
   * first occurrence: a sorted rearrangement of the distinct words.
   */
  function Ranking(words: seq<string>): (ranked: seq<string>)
    ensures SortedDesc(ranked, ByCount(words))
    ensures multiset(ranked) == multiset(Distinct(words))
  {
    SortDescCorrect(Distinct(words), ByCount(words));
    SortDesc(Distinct(words), ByCount(words))
  }

  /** How many entries `most_common(n)` returns. */
  function TopSize(n: int, available: nat): nat {
    if n <= 0 then 0 else if n < available then n else available
  }

  /**
   * The words `most_common(n)` keeps: the first `n` of the ranking, or all
   * of them when there are fewer distinct words; each occurs in `words`.
   * `TopWordsMostFrequent` shows they are the most frequent words.
   */
  function TopWords(words: seq<string>, n: int): (top: seq<string>)
    ensures |top| == TopSize(n, |Distinct(words)|)
    ensures forall i :: 0 <= i < |top| ==> top[i] in words
  {
    var ranked := Ranking(words);
    RankingCorrect(words);
    ranked[..TopSize(n, |ranked|)]
  }

  /**
   * The kept words are the most frequent ones: no word left out occurs more
   * often than a word kept, and a word left out with the same count as a
   * word kept first occurs after it.
   */
  lemma TopWordsMostFrequent(words: seq<string>, n: int)
    ensures var top := TopWords(words, n);
      forall i, v :: 0 <= i < |top| && v in words && v !in top ==> Count(words, v) <= Count(words, top[i])
    ensures var top := TopWords(words, n);
      forall i, v :: 0 <= i < |top| && v in words && v !in top && Count(words, v) == Count(words, top[i]) ==>
        IndexOf(words, top[i]) < IndexOf(words, v)
  {
    var ranked, top := Ranking(words), TopWords(words, n);
    RankingCorrect(words);
    var m := TopSize(n, |ranked|);
    assert top == ranked[..m];
    forall i, v | 0 <= i < |top| && v in words && v !in top
      ensures Count(words, v) <= Count(words, top[i])
      ensures Count(words, v) == Count(words, top[i]) ==> IndexOf(words, top[i]) < IndexOf(words, v) {
      PrefixDominates(ranked, ByCount(words), m, top[i], v);
      if Count(words, v) == Count(words, top[i]) {
        PrefixTiesFirst(ranked, ByCount(words), FirstSeen(words), m, top[i], v);
      }
    }
  }

  /**
   * `Counter(words).most_common(n)`: `n` pairs (fewer when there are fewer
   * distinct words) of a word and its number of occurrences, each word once,
   * counts never increasing, and equal counts in order of first occurrence.
   * `MostCommonMostFrequent` shows the words are the most frequent ones.
   */
  function MostCommon(words: seq<string>, n: int): (mc: seq<(string, nat)>)
    ensures |mc| == TopSize(n, |Distinct(words)|)
    ensures forall i :: 0 <= i < |mc| ==> mc[i].0 in words && mc[i].1 == Count(words, mc[i].0)
    ensures forall i, j :: 0 <= i < j < |mc| ==> mc[i].0 != mc[j].0
    ensures forall i, j :: 0 <= i < j < |mc| ==> mc[i].1 >= mc[j].1
    ensures forall i, j :: 0 <= i < j < |mc| && mc[i].1 == mc[j].1 ==>
      IndexOf(words, mc[i].0) < IndexOf(words, mc[j].0)
  {
    var top := TopWords(words, n);
    TopWordsOrdered(words, n);
    seq(|top|, i requires 0 <= i < |top| => (top[i], Count(words, top[i])))
  }

  /** The kept words are distinct, by descending count, ties in order of first occurrence. */
  lemma TopWordsOrdered(words: seq<string>, n: int)
    ensures var top := TopWords(words, n);
      && NoDup(top)
      && SortedDesc(top, ByCount(words))
      && StableBy(top, ByCount(words), FirstSeen(words))
  {
    var ranked := Ranking(words);
    RankingCorrect(words);
    assert TopWords(words, n) == ranked[..TopSize(n, |ranked|)];
    PrefixOrdered(ranked, TopSize(n, |ranked|), ByCount(words), FirstSeen(words));
  }

  /** The pairs of `most_common(n)` hold the kept words in order. */
  lemma MostCommonWords(words: seq<string>, n: int)
    ensures var mc, tw := MostCommon(words, n), TopWords(words, n);
      |mc| == |tw| && forall i :: 0 <= i < |mc| ==> mc[i].0 == tw[i]
  {
  }

  /**
   * The pairs `most_common(n)` returns hold the most frequent words: a word
   * of `words` that no pair holds occurs at most as often as any pair's
   * count, and on a tie it first occurs after that pair's word.
   */
  lemma MostCommonMostFrequent(words: seq<string>, n: int)
    ensures var mc := MostCommon(words, n);
      forall i, v :: 0 <= i < |mc| && v in words && (forall j :: 0 <= j < |mc| ==> mc[j].0 != v) ==>
        Count(words, v) <= mc[i].1
    ensures var mc := MostCommon(words, n);
      forall i, v ::
        (0 <= i < |mc| && v in words && (forall j :: 0 <= j < |mc| ==> mc[j].0 != v) && Count(words, v) == mc[i].1) ==>
        IndexOf(words, mc[i].0) < IndexOf(words, v)
  {
    MostCommonWords(words, n);
    TopWordsMostFrequent(words, n);
  }

  /**
   * The ranking lists every distinct word once, by descending count, and
   * words with equal counts in the order they first occur in `words`.
   */
  lemma RankingCorrect(words: seq<string>)
    ensures var ranked := Ranking(words);
            && SortedDesc(ranked, ByCount(words))
            && NoDup(ranked)
            && |ranked| == |Distinct(words)|
            && (forall w :: w in ranked <==> w in words)
            && StableBy(ranked, ByCount(words), FirstSeen(words))
  {
    var d := Distinct(words);
    var ranked := Ranking(words);
    DistinctFirstOccurrence(words);
    assert Increasing(d, FirstSeen(words));
    SortDescStable(d, ByCount(words), FirstSeen(words));
    PermutationNoDup(d, ranked);
    assert |ranked| == |multiset(ranked)| == |multiset(d)| == |d|;
    forall w ensures w in ranked <==> w in words {
      assert w in ranked <==> w in multiset(ranked);
      assert w in d <==> w in multiset(d);
      if w in words {
        var i :| 0 <= i < |words| && words[i] == w;
      }
      if w in d {
        var i :| 0 <= i < |d| && d[i] == w;
      }
    }
  }

  /**
   * `top_words_counter`: `dict(Counter(words).most_common(n))`. It has
   * `n` entries, or fewer when there are fewer distinct words; each value is
   * that word's number of occurrences, and no word left out occurs more often
   * than a word kept, and a word left out with the same count as a word kept
   * first occurs after it.
   */
  function TopWordsCounter(processedWords: seq<string>, numberOfWords: int := 10): (top: map<string, nat>)
    ensures |top| == TopSize(numberOfWords, |Distinct(processedWords)|)
    ensures forall w :: w in top ==> w in processedWords && top[w] == Count(processedWords, w)
    ensures forall w, v :: w in top && v in processedWords && v !in top ==> Count(processedWords, v) <= top[w]
    ensures forall w, v :: w in top && v in processedWords && v !in top && Count(processedWords, v) == top[w] ==>
      IndexOf(processedWords, w) < IndexOf(processedWords, v)
    ensures numberOfWords >= |Distinct(processedWords)| ==> forall w :: w in processedWords ==> w in top
  {
    var mc := MostCommon(processedWords, numberOfWords);
    var top := map p | p in mc :: p.0 := p.1;
    TopKeys(processedWords, numberOfWords, top);
    TopWordsCounterCorrect(processedWords, numberOfWords, top);
    top
  }

  /**
   * `top_words_counter(words, 1)` holds the most frequent word, and among
   * words tied for the highest count, the one that occurs first.
   */
  lemma TopOneFirstOfTied(words: seq<string>, b: string)
    requires b in words
    requires forall v :: v in words ==> Count(words, v) <= Count(words, b)
    requires forall v :: v in words && Count(words, v) == Count(words, b) ==> IndexOf(words, b) <= IndexOf(words, v)
    ensures TopWordsCounter(words, 1) == map[b := Count(words, b)]
  {
    var top := TopWordsCounter(words, 1);
    var i :| 0 <= i < |words| && words[i] == b;
    assert b in Distinct(words);
    assert |top| == 1;
    SingleKey(top, b);
  }

  lemma SingleKey<K, V>(m: map<K, V>, k: K)
    requires |m| == 1 && k in m
    ensures m == map[k := m[k]]
  {
    var rest := m.Keys - {k};
    assert m.Keys == rest + {k};
    assert |rest| == 0;
    assert m.Keys == {k};
  }

  lemma TopKeys(words: seq<string>, n: int, top: map<string, nat>)
    requires top == map p | p in MostCommon(words, n) :: p.0 := p.1
    ensures forall w :: w in top <==> w in TopWords(words, n)
    ensures forall w :: w in top ==> top[w] == Count(words, w)
  {
    var mc := MostCommon(words, n);
    var tw := TopWords(words, n);
    MostCommonWords(words, n);
    forall w ensures w in top <==> w in tw {
      if w in top {
        var p :| p in mc && p.0 == w;
        var i :| 0 <= i < |mc| && mc[i] == p;
        assert tw[i] == w;
      }
      if w in tw {
        var i :| 0 <= i < |tw| && tw[i] == w;
        assert mc[i] in mc;
      }
    }
  }

  lemma TopWordsCounterCorrect(words: seq<string>, n: int, top: map<string, nat>)
    requires forall w :: w in top <==> w in TopWords(words, n)
    requires forall w :: w in top ==> top[w] == Count(words, w)
    ensures |top| == TopSize(n, |Distinct(words)|)
    ensures forall w :: w in top ==> w in words
    ensures forall w, v :: w in top && v in words && v !in top ==> Count(words, v) <= top[w]
    ensures forall w, v :: w in top && v in words && v !in top && Count(words, v) == top[w] ==>
      IndexOf(words, w) < IndexOf(words, v)
    ensures n >= |Distinct(words)| ==> forall w :: w in words ==> w in top
  {
    RankingCorrect(words);
    TopSizeCorrect(words, n, top);
    forall w | w in top ensures w in words {
      var tw := TopWords(words, n);
      var i :| 0 <= i < |tw| && tw[i] == w;
    }
    TopDominates(words, n, top);
    TopTiesFirst(words, n, top);
    if n >= |Distinct(words)| {
      TopCoversAll(words, n, top);
    }
  }

  lemma TopSizeCorrect(words: seq<string>, n: int, top: map<string, nat>)
    requires forall w :: w in top <==> w in TopWords(words, n)
    requires NoDup(Ranking(words)) && |Ranking(words)| == |Distinct(words)|
    ensures |top| == TopSize(n, |Distinct(words)|)
  {
    var tw := TopWords(words, n);
    assert top.Keys == set w | w in tw;
    assert NoDup(tw);
    NoDupCard(tw);
  }

  lemma TopDominates(words: seq<string>, n: int, top: map<string, nat>)
    requires forall w :: w in top <==> w in TopWords(words, n)
    requires forall w :: w in top ==> top[w] == Count(words, w)
    requires SortedDesc(Ranking(words), ByCount(words))
    requires forall w :: w in Ranking(words) <==> w in words
    ensures forall w, v :: w in top && v in words && v !in top ==> Count(words, v) <= top[w]
  {
    var ranked := Ranking(words);
    var m := TopSize(n, |ranked|);
    assert TopWords(words, n) == ranked[..m];
    forall w, v | w in top && v in words && v !in top ensures Count(words, v) <= top[w] {
      PrefixDominates(ranked, ByCount(words), m, w, v);
    }
  }

  /** When `n` reaches the number of distinct words, every word is kept. */
  lemma TopCoversAll(words: seq<string>, n: int, top: map<string, nat>)
    requires forall w :: w in top <==> w in TopWords(words, n)
    requires forall w :: w in Ranking(words) <==> w in words
    requires |Ranking(words)| == |Distinct(words)| <= n
    ensures forall w :: w in words ==> w in top
  {
    var ranked := Ranking(words);
    assert TopWords(words, n) == ranked;
  }

  /** A word left out with the same count as a word kept first occurs after it. */
  lemma TopTiesFirst(words: seq<string>, n: int, top: map<string, nat>)
    requires forall w :: w in top <==> w in TopWords(words, n)
    requires forall w :: w in top ==> top[w] == Count(words, w)
    requires StableBy(Ranking(words), ByCount(words), FirstSeen(words))
    requires forall w :: w in Ranking(words) <==> w in words
    ensures forall w, v :: w in top && v in words && v !in top && Count(words, v) == top[w] ==>
      IndexOf(words, w) < IndexOf(words, v)
  {
    var ranked := Ranking(words);
    var m := TopSize(n, |ranked|);
    assert TopWords(words, n) == ranked[..m];
    forall w, v | w in top && v in words && v !in top && Count(words, v) == top[w]
      ensures IndexOf(words, w) < IndexOf(words, v) {
      PrefixTiesFirst(ranked, ByCount(words), FirstSeen(words), m, w, v);
    }
  }

  /** In a sequence sorted by descending key, an element of a prefix has a key
      at least that of any element outside the prefix. */
  lemma PrefixDominates(ranked: seq<string>, key: string -> int, m: nat, w: string, v: string)
    requires SortedDesc(ranked, key) && m <= |ranked|
    requires w in ranked[..m] && v in ranked && v !in ranked[..m]
    ensures key(v) <= key(w)
  {
    var i :| 0 <= i < m && ranked[..m][i] == w;
    var j :| 0 <= j < |ranked| && ranked[j] == v;
  }

  /** In a stable ranking, a kept element ties with a dropped one only if it comes first. */
  lemma PrefixTiesFirst(ranked: seq<string>, key: string -> int, pos: string -> int, m: nat, w: string, v: string)
    requires StableBy(ranked, key, pos) && m <= |ranked|
    requires w in ranked[..m] && v in ranked && v !in ranked[..m]
    requires key(v) == key(w)
    ensures pos(w) < pos(v)
  {
    var i :| 0 <= i < m && ranked[..m][i] == w;
    var j :| 0 <= j < |ranked| && ranked[j] == v;
    assert j >= m;
  }

  // ---------------------------------------------------------------------
  // Vocabulary lookup shared by the two category counters
  // ---------------------------------------------------------------------

  /** `vocabulary[i]` is the last entry whose lower-case form is `key`. */
  predicate IsLastSpelling(vocabulary: seq<string>, i: int, key: string) {
    && 0 <= i < |vocabulary|
    && Lower(vocabulary[i]) == key
    && forall j :: i < j < |vocabulary| ==> Lower(vocabulary[j]) != key
  }

  /**
   * `{word.lower(): word for word in vocabulary}`: each lower-case form maps to
   * the last entry with that form (see `CaseMapCorrect`). Every key is the
   * lower-case form of its value, and there are no more keys than entries.
   */
  function CaseMap(vocabulary: seq<string>): (m: map<string, string>)
    ensures forall k :: k in m ==> Lower(m[k]) == k
    ensures |m| <= |vocabulary|
  {
    if vocabulary == [] then map[]
    else
      var last := vocabulary[|vocabulary| - 1];
      CaseMap(vocabulary[..|vocabulary| - 1])[Lower(last) := last]
  }

  /** The lookup has a key for every entry's lower-case form and for nothing
      else, and each key maps to the last entry with that form. */
  lemma CaseMapCorrect(vocabulary: seq<string>)
    ensures forall k :: k in CaseMap(vocabulary) <==> exists i :: 0 <= i < |vocabulary| && Lower(vocabulary[i]) == k
    ensures forall k :: k in CaseMap(vocabulary) ==>
      exists i :: IsLastSpelling(vocabulary, i, k) && CaseMap(vocabulary)[k] == vocabulary[i]
  {
    CaseMapKeys(vocabulary);
    CaseMapLast(vocabulary);
  }

  lemma {:induction false} CaseMapKeys(vocabulary: seq<string>)
    ensures forall k :: k in CaseMap(vocabulary) <==> exists i :: 0 <= i < |vocabulary| && Lower(vocabulary[i]) == k
  {
    if vocabulary != [] {
      var init := vocabulary[..|vocabulary| - 1];
      var last := vocabulary[|vocabulary| - 1];
      var m := CaseMap(vocabulary);
      assert m == CaseMap(init)[Lower(last) := last];
      CaseMapKeys(init);
      forall k | exists i :: 0 <= i < |vocabulary| && Lower(vocabulary[i]) == k ensures k in m {
        var i :| 0 <= i < |vocabulary| && Lower(vocabulary[i]) == k;
        if i < |vocabulary| - 1 {
          assert Lower(init[i]) == k;
          assert k in CaseMap(init);
        }
      }
      forall k | k in m ensures exists i :: 0 <= i < |vocabulary| && Lower(vocabulary[i]) == k {
        if k != Lower(last) {
          var i :| 0 <= i < |init| && Lower(init[i]) == k;
          assert Lower(vocabulary[i]) == k;
        }
      }
    }
  }

  lemma {:induction false} CaseMapLast(vocabulary: seq<string>)
    ensures forall k :: k in CaseMap(vocabulary) ==>
      exists i :: IsLastSpelling(vocabulary, i, k) && CaseMap(vocabulary)[k] == vocabulary[i]
  {
    if vocabulary != [] {
      var init := vocabulary[..|vocabulary| - 1];
      var last := vocabulary[|vocabulary| - 1];
      var m := CaseMap(vocabulary);
      assert m == CaseMap(init)[Lower(last) := last];
      CaseMapLast(init);
      assert IsLastSpelling(vocabulary, |vocabulary| - 1, Lower(last));
      forall k | k in CaseMap(init) && k != Lower(last)
        ensures exists i :: IsLastSpelling(vocabulary, i, k) && m[k] == vocabulary[i] {
        var i :| IsLastSpelling(init, i, k) && CaseMap(init)[k] == init[i];
        assert IsLastSpelling(vocabulary, i, k);
      }
    }
  }

  /** The original spellings are recovered from the lookup by lower-casing. */
  lemma CaseMapLowers(vocabulary: seq<string>, k: string)
    requires k in CaseMap(vocabulary)
    ensures Lower(CaseMap(vocabulary)[k]) == k
    ensures CaseMap(vocabulary)[k] in vocabulary
  {
    CaseMapCorrect(vocabulary);
    var i :| IsLastSpelling(vocabulary, i, k) && CaseMap(vocabulary)[k] == vocabulary[i];
  }

  /** `word` is the spelling the vocabulary lookup keeps for its lower-case form. */
  predicate IsKeptSpelling(vocabulary: seq<string>, word: string) {
    Lower(word) in CaseMap(vocabulary) && CaseMap(vocabulary)[Lower(word)] == word
  }

  /** Every entry is represented by exactly one kept spelling: the last entry
      with the same lower-case form. */
  lemma KeptSpellingIsLast(vocabulary: seq<string>, word: string)
    requires IsKeptSpelling(vocabulary, word)
    ensures word in vocabulary
    ensures exists i :: IsLastSpelling(vocabulary, i, Lower(word)) && vocabulary[i] == word
  {
    CaseMapCorrect(vocabulary);
    var i :| IsLastSpelling(vocabulary, i, Lower(word)) && CaseMap(vocabulary)[Lower(word)] == vocabulary[i];
  }

  /**
   * `{mapping[word]: count for word, count in counts.items()}`: the counts
   * re-keyed by the kept original spelling of each lower-case key.
   */
  function MapBack(vocabulary: seq<string>, counts: map<string, nat>): (mapped: map<string, nat>)
    requires forall k :: k in counts ==> k in CaseMap(vocabulary)
    ensures forall x :: x in mapped <==> IsKeptSpelling(vocabulary, x) && Lower(x) in counts
    ensures forall x :: x in mapped ==> x in vocabulary && mapped[x] == counts[Lower(x)]
  {
    var mapping := CaseMap(vocabulary);
    assert forall k :: k in counts ==> Lower(mapping[k]) == k && mapping[k] in vocabulary by {
      forall k | k in counts ensures Lower(mapping[k]) == k && mapping[k] in vocabulary {
        CaseMapLowers(vocabulary, k);
      }
    }
    var mapped := map k | k in counts :: mapping[k] := counts[k];
    assert forall x :: x in mapped ==> exists k :: k in counts && mapping[k] == x;
    mapped
  }

  // ---------------------------------------------------------------------
  // single_count_word_category
  // ---------------------------------------------------------------------

  /**
   * `single_count_word_category`: for each kept vocabulary spelling, the number
   * of tokens exactly equal to its lower-case form; tokens themselves are not
   * lower-cased. Spellings never matched are absent, and all the counts
   * together do not exceed the number of tokens.
   */
  method SingleCountWordCategory(processedWords: seq<string>, wordCategoryList: seq<string>)
    returns (mappedWordCount: map<string, nat>)
    ensures forall k :: k in mappedWordCount <==> IsKeptSpelling(wordCategoryList, k) && Lower(k) in processedWords
    ensures forall k :: k in mappedWordCount ==> k in wordCategoryList
    ensures forall k :: k in mappedWordCount ==> mappedWordCount[k] == Count(processedWords, Lower(k))
    ensures Total(mappedWordCount) <= |processedWords|
  {
    var wordCategoryMapping := CaseMap(wordCategoryList);
    var wordCategorySet := wordCategoryMapping.Keys;
    var wordCount: map<string, nat> := map[];
    for i := 0 to |processedWords|
      invariant forall k :: k in wordCount <==> k in wordCategorySet && k in processedWords[..i]
      invariant forall k :: k in wordCount ==> wordCount[k] == Count(processedWords[..i], k)
    {
      var word := processedWords[i];
      assert processedWords[..i + 1] == processedWords[..i] + [word];
      forall k ensures Count(processedWords[..i + 1], k) == Count(processedWords[..i], k) + (if k == word then 1 else 0) {
        CountAppend(processedWords[..i], [word], k);
      }
      if word in wordCategorySet {
        assert CounterGet(wordCount, word) == Count(processedWords[..i], word);
        wordCount := wordCount[word := CounterGet(wordCount, word) + 1];
      }
    }
    assert processedWords[..|processedWords|] == processedWords;
    mappedWordCount := MapBack(wordCategoryList, wordCount);
    CountsAtDistinctKeysBounded(processedWords, mappedWordCount);
  }

  /** The lower-case forms of the keys of `m`. */
  ghost function LowerKeysOf(m: map<string, nat>): (keys: set<string>)
    ensures forall x :: x in keys <==> exists k :: k in m && Lower(k) == x
  {
    set k | k in m :: Lower(k)
  }

  /** Counts of words at pairwise different lower-case keys add up to at most the number of words. */
  lemma {:induction false} CountsAtDistinctKeysBounded(words: seq<string>, m: map<string, nat>)
    requires forall k :: k in m ==> m[k] == Count(words, Lower(k))
    requires forall k1, k2 :: k1 in m && k2 in m && Lower(k1) == Lower(k2) ==> k1 == k2
    ensures Total(m) == CountIn(words, LowerKeysOf(m))
    ensures Total(m) <= |words|
    decreases |m|
  {
    if |m| == 0 {
      assert LowerKeysOf(m) == {};
      CountInNone(words);
    } else {
      var k :| k in m;
      var rest := m - {k};
      TotalRemove(m, k);
      CountsAtDistinctKeysBounded(words, rest);
      var keys := LowerKeysOf(rest);
      assert Lower(k) !in keys;
      assert LowerKeysOf(m) == keys + {Lower(k)};
      CountInAddKey(words, keys, Lower(k));
    }
  }

  lemma {:induction false} CountInNone(words: seq<string>)
    ensures CountIn(words, {}) == 0
  {
    if words != [] {
      CountInNone(words[1..]);
    }
  }

  // ---------------------------------------------------------------------
  // multi_count_word_category
  // ---------------------------------------------------------------------

  function LowerEach(vocabulary: seq<string>): (r: seq<string>)
    ensures |r| == |vocabulary|
    ensures forall i :: 0 <= i < |r| ==> r[i] == Lower(vocabulary[i])
  {
    seq(|vocabulary|, i requires 0 <= i < |vocabulary| => Lower(vocabulary[i]))
  }

  /** `word_mapping.keys()`: the lower-case forms in order of first occurrence. */
  function LowerKeys(vocabulary: seq<string>): (keys: seq<string>)
    ensures NoDup(keys)
    ensures forall k :: k in keys <==> k in CaseMap(vocabulary)
  {
    var lowered := LowerEach(vocabulary);
    var keys := Distinct(lowered);
    CaseMapCorrect(vocabulary);
    assert forall k :: k in keys <==> k in lowered by {
      forall k ensures k in keys <==> k in lowered {
        if k in keys {
          var i :| 0 <= i < |keys| && keys[i] == k;
        }
        if k in lowered {
          var i :| 0 <= i < |lowered| && lowered[i] == k;
        }
      }
    }
    keys
  }

  /** String length as a sort key. */
  function Length(s: string): int { |s| }

  /**
   * `multi_count_word_category`: for each kept vocabulary spelling, the number
   * of non-overlapping occurrences of its lower-case form in the tokens
   * joined by single spaces; spellings with no occurrence are absent. Each
   * count depends on its own term only, so the longest-first order in which
   * the terms are visited changes no count.
   */
  method MultiCountWordCategory(processedWords: seq<string>, wordList: seq<string>)
    returns (mappedWordCount: map<string, nat>)
    ensures forall k :: k in mappedWordCount <==>
      IsKeptSpelling(wordList, k) && StrCount(JoinWith(" ", processedWords), Lower(k)) > 0
    ensures forall k :: k in mappedWordCount ==> k in wordList
    ensures forall k :: k in mappedWordCount ==>
      mappedWordCount[k] == StrCount(JoinWith(" ", processedWords), Lower(k))
  {
    var sortedWords := SortDesc(LowerKeys(wordList), Length);
    SortedKeys(wordList);
    var textString := JoinWith(" ", processedWords);
    var wordCount := CountTerms(textString, sortedWords);
    mappedWordCount := MapBack(wordList, wordCount);
  }

  /**
   * The counting loop of `multi_count_word_category`: `text.count(term)` for
   * each term, in the order given, keeping only positive counts. The result
   * is the same for every order of the same distinct terms.
   */
  method CountTerms(text: string, terms: seq<string>) returns (wordCount: map<string, nat>)
    requires NoDup(terms)
    ensures forall k :: k in wordCount <==> k in terms && StrCount(text, k) > 0
    ensures forall k :: k in wordCount ==> wordCount[k] == StrCount(text, k)
  {
    wordCount := map[];
    for i := 0 to |terms|
      invariant forall k :: k in wordCount <==> k in terms[..i] && StrCount(text, k) > 0
      invariant forall k :: k in wordCount ==> wordCount[k] == StrCount(text, k)
    {
      var word := terms[i];
      assert terms[..i + 1] == terms[..i] + [word];
      assert word !in terms[..i];
      var count := StrCount(text, word);
      if count > 0 {
        assert CounterGet(wordCount, word) == 0;
        wordCount := wordCount[word := CounterGet(wordCount, word) + count];
      }
    }
    assert terms[..|terms|] == terms;
  }

  /** Sorting the lower-case keys by length neither loses nor repeats a key. */
  lemma SortedKeys(wordList: seq<string>)
    ensures var sortedWords := SortDesc(LowerKeys(wordList), Length);
            NoDup(sortedWords) && forall k :: k in sortedWords <==> k in CaseMap(wordList)
  {
    var keys := LowerKeys(wordList);
    var sortedWords := SortDesc(keys, Length);
    SortDescCorrect(keys, Length);
    PermutationNoDup(keys, sortedWords);
    forall k ensures k in sortedWords <==> k in keys {
      assert k in sortedWords <==> k in multiset(sortedWords);
      assert k in keys <==> k in multiset(keys);
    }
  }

  /** `"cloud"` is counted inside `"google cloud"` although the longer term is visited first. */
  lemma LongerTermDoesNotShadow()
    ensures StrCount(JoinWith(" ", ["google", "cloud"]), "cloud") > 0
    ensures StrCount(JoinWith(" ", ["google", "cloud"]), "google cloud") > 0
  {
    var text := JoinWith(" ", ["google", "cloud"]);
    assert text == "google cloud";
    assert OccursAt(text, "cloud", 7);
    StrCountPositive(text, "cloud");
  }

  /** Matching is by substring, so `"java"` is found inside the token `"javascript"`. */
  lemma SubstringInsideToken()
    ensures StrCount(JoinWith(" ", ["javascript"]), "java") > 0
  {
    assert JoinWith(" ", ["javascript"])[..4] == "java";
  }
}
