/** FrequencyStrategy: per-position letter counts over the candidates, a word's
    score as the sum of the counts of its letters, and the first word with the
    top score as the next guess. */
module Frequency {
  import opened Wrappers
  import opened Sequences
  import opened Tallies
  import opened Words
  import opened WordList

  /** One HashMap<Character, Integer> per position. */
  type Table = seq<map<char, nat>>

  /** The test "has letter `c` at position `i`". */
  function HasAt(i: nat, c: char): string -> bool
  {
    w => i < |w| && w[i] == c
  }

  /** The number of words that have letter `c` at position `i`. */
  function CountAt(words: seq<string>, i: nat, c: char): nat
  {
    |Select(words, HasAt(i, c))|
  }

  /** The map for position `i` after the words have been visited in order,
      each adding one to the entry of its letter at `i`. */
  function Counts(words: seq<string>, i: nat): map<char, nat>
    requires forall w :: w in words ==> i < |w|
  {
    if words == [] then map[]
    else
      var m := Counts(words[..|words| - 1], i);
      var c := words[|words| - 1][i];
      m[c := Get(m, c) + 1]
  }

  /** The table getFrequencyForEachPos builds: one map per position of the first word. */
  function FrequencyTable(words: seq<string>): (t: Table)
    requires |words| > 0 && SameLength(words, |words[0]|)
    ensures |t| == |words[0]|
  {
    CountsBelow(words, |words[0]|)
  }

  /** The maps for positions 0 .. n-1. */
  function CountsBelow(words: seq<string>, n: nat): (t: Table)
    requires forall w :: w in words ==> n <= |w|
    ensures |t| == n
  {
    if n == 0 then [] else CountsBelow(words, n - 1) + [Counts(words, n - 1)]
  }

  /** Entry `i` of the table is the map for position `i`. */
  lemma FrequencyTableAt(words: seq<string>, i: nat)
    requires |words| > 0 && SameLength(words, |words[0]|) && i < |words[0]|
    ensures FrequencyTable(words)[i] == Counts(words, i)
  {
    CountsBelowAt(words, |words[0]|, i);
  }

  lemma {:induction false} CountsBelowAt(words: seq<string>, n: nat, i: nat)
    requires forall w :: w in words ==> n <= |w|
    requires i < n
    ensures CountsBelow(words, n)[i] == Counts(words, i)
  {
    if i < n - 1 {
      CountsBelowAt(words, n - 1, i);
    }
  }

  /** Each entry of the map for position i is the number of words with that
      letter there; a letter is a key exactly when some word has it there; and
      the entries add up to the number of words. */
  lemma {:induction false} CountsSpec(words: seq<string>, i: nat, c: char)
    requires forall w :: w in words ==> i < |w|
    ensures Get(Counts(words, i), c) == CountAt(words, i, c)
    ensures c in Counts(words, i) <==> CountAt(words, i, c) > 0
    ensures Total(Counts(words, i)) == |words|
  {
    if words != [] {
      var init, last := words[..|words| - 1], words[|words| - 1];
      assert forall w :: w in init ==> w in words;
      CountsSpec(init, i, c);
      TotalBump(Counts(init, i), last[i]);
    }
  }

  /** Visiting one more word adds one to the entry of its letter at `i`. */
  lemma CountsPrefixStep(words: seq<string>, n: nat, i: nat)
    requires n < |words| && forall w :: w in words ==> i < |w|
    ensures Counts(words[..n + 1], i)
      == Counts(words[..n], i)[words[n][i] := Get(Counts(words[..n], i), words[n][i]) + 1]
  {
    assert words[..n + 1][..n] == words[..n];
  }

  /** FrequencyStrategy.getFrequencyForEachPos: one count map per position of
      the first word, filled by a pass over all words. */
  method GetFrequencyForEachPos(possibleWords: seq<string>) returns (frequency: Table)
    requires |possibleWords| > 0 && SameLength(possibleWords, |possibleWords[0]|)
    ensures frequency == FrequencyTable(possibleWords)
  {
    var wordLength := |possibleWords[0]|;
    var table := new map<char, nat>[wordLength](_ => map[]);
    for n := 0 to |possibleWords|
      invariant forall i :: 0 <= i < wordLength ==> table[i] == Counts(possibleWords[..n], i)
    {
      var word := possibleWords[n];
      for i := 0 to |word|
        invariant forall k :: 0 <= k < i ==> table[k] == Counts(possibleWords[..n + 1], k)
        invariant forall k :: i <= k < wordLength ==> table[k] == Counts(possibleWords[..n], k)
      {
        var letter := word[i];
        CountsPrefixStep(possibleWords, n, i);
        table[i] := table[i][letter := Get(table[i], letter) + 1];
      }
    }
    assert possibleWords[..|possibleWords|] == possibleWords;
    frequency := table[..];
    forall i | 0 <= i < wordLength
      ensures frequency[i] == FrequencyTable(possibleWords)[i]
    {
      FrequencyTableAt(possibleWords, i);
    }
  }

  /** The table has one map per position; each entry is the number of words
      with that letter at that position, a letter is a key exactly when some
      word has it there, and each map's entries add up to the number of words. */
  lemma FrequencyTableSpec(words: seq<string>, i: nat, c: char)
    requires |words| > 0 && SameLength(words, |words[0]|) && i < |words[0]|
    ensures |FrequencyTable(words)| == |words[0]|
    ensures Get(FrequencyTable(words)[i], c) == CountAt(words, i, c)
    ensures c in FrequencyTable(words)[i] <==> CountAt(words, i, c) > 0
    ensures Total(FrequencyTable(words)[i]) == |words|
  {
    FrequencyTableAt(words, i);
    CountsSpec(words, i, c);
  }

  /** The sum over positions i of the count of word[i] at i, 0 for a letter
      without an entry. */
  function Score(word: string, frequency: Table): nat
    requires |word| <= |frequency|
  {
    if word == [] then 0
    else Score(word[..|word| - 1], frequency) + Get(frequency[|word| - 1], word[|word| - 1])
  }

  /** Extending a prefix by one position adds that position's entry. */
  lemma ScorePrefixStep(word: string, frequency: Table, i: nat)
    requires i < |word| <= |frequency|
    ensures Score(word[..i + 1], frequency) == Score(word[..i], frequency) + Get(frequency[i], word[i])
  {
    assert word[..i + 1][..i] == word[..i];
  }

  /** A candidate's own letter at position i is counted at least once (it
      counts itself) and at most once per candidate. */
  lemma EntryBounds(words: seq<string>, w: string, i: nat)
    requires |words| > 0 && SameLength(words, |words[0]|) && w in words && i < |w|
    ensures 1 <= Get(FrequencyTable(words)[i], w[i]) <= |words|
  {
    FrequencyTableAt(words, i);
    CountsSpec(words, i, w[i]);
    SelectCount(words, HasAt(i, w[i]), w);
  }

  /** A candidate scored against its own list's table gets at least 1 and at
      most the number of candidates per letter. */
  lemma {:induction false} ScoreBounds(words: seq<string>, w: string, n: nat)
    requires |words| > 0 && SameLength(words, |words[0]|) && w in words
    requires n <= |w|
    ensures n <= Score(w[..n], FrequencyTable(words)) <= n * |words|
  {
    if n > 0 {
      var t := FrequencyTable(words);
      ScoreBounds(words, w, n - 1);
      EntryBounds(words, w, n - 1);
      ScorePrefixStep(w, t, n - 1);
      assert n * |words| == (n - 1) * |words| + |words|;
    }
  }

  /** FrequencyStrategy.giveScoreToWord: sums the table entries of the word's letters. */
  method GiveScoreToWord(word: string, frequency: Table) returns (score: nat)
    requires |word| <= |frequency|
    ensures score == Score(word, frequency)
  {
    score := 0;
    for i := 0 to |word|
      invariant score == Score(word[..i], frequency)
    {
      var letter := word[i];
      ScorePrefixStep(word, frequency, i);
      score := score + Get(frequency[i], letter);
    }
    assert word[..|word|] == word;
  }

  /** The frequency score of every candidate, in list order. */
  function FrequencyScores(words: seq<string>): (s: seq<nat>)
    requires |words| > 0 && SameLength(words, |words[0]|)
    ensures |s| == |words|
  {
    seq(|words|, j requires 0 <= j < |words| => Score(words[j], FrequencyTable(words)))
  }

  /** The class. `guesses` holds the candidates still possible. */
  class FrequencyStrategy {
    const dictionary: Dictionary
    var guesses: WordleWordList

    ghost predicate Valid()
      reads this, guesses
    {
      guesses.Valid() && guesses.allWords == dictionary
    }

    constructor(dictionary: Dictionary)
      ensures this.dictionary == dictionary && fresh(guesses)
      ensures guesses.allWords == dictionary && guesses.possibleAnswers == dictionary.answerWords
      ensures dictionary.WellFormed() ==> Valid()
    {
      this.dictionary := dictionary;
      guesses := new WordleWordList(dictionary);
    }

    /** FrequencyStrategy.findBestWord: the first candidate whose score is
        strictly above every earlier one and not below any later one, or null
        when no score is above 0. */
    method FindBestWord(possibleAnswers: seq<string>) returns (r: Option<string>)
      requires |possibleAnswers| > 0 && SameLength(possibleAnswers, |possibleAnswers[0]|)
      ensures r.None? <==> forall j :: 0 <= j < |possibleAnswers| ==> FrequencyScores(possibleAnswers)[j] == 0
      ensures r.Some? ==> exists k :: FirstMaxAt(FrequencyScores(possibleAnswers), k) && r.value == possibleAnswers[k]
    {
      var frequency := GetFrequencyForEachPos(possibleAnswers);
      ghost var scores := FrequencyScores(possibleAnswers);
      var bestWord: Option<string> := None;
      var bestScore: nat := 0;
      ghost var bestIndex := -1;
      for n := 0 to |possibleAnswers|
        invariant forall j :: 0 <= j < n ==> scores[j] <= bestScore
        invariant bestWord.None? ==> bestScore == 0
        invariant bestWord.Some? ==>
          && 0 <= bestIndex < n && bestWord.value == possibleAnswers[bestIndex]
          && scores[bestIndex] == bestScore > 0
          && forall j :: 0 <= j < bestIndex ==> scores[j] < bestScore
      {
        var word := possibleAnswers[n];
        var score := GiveScoreToWord(word, frequency);
        if score > bestScore {
          bestScore := score;
          bestWord := Some(word);
          bestIndex := n;
        }
      }
      r := bestWord;
    }

    /** FrequencyStrategy.makeGuess: filter by the feedback when there is one,
        then return the only candidate left or the best-scoring one. */
    method MakeGuess(feedback: Option<WordleWord>, isPossibleWord: (string, WordleWord) -> bool) returns (r: Result<string>)
      requires Valid()
      modifies guesses
      ensures Valid()
      ensures feedback.None? ==> guesses.possibleAnswers == old(guesses.possibleAnswers)
      ensures feedback.Some? ==>
        guesses.possibleAnswers == Eliminate(old(guesses.possibleAnswers), feedback.value, isPossibleWord)
      ensures r.Err? <==> guesses.possibleAnswers == []
      ensures r.Ok? ==> r.value in guesses.possibleAnswers
      ensures |guesses.possibleAnswers| == 1 ==> r == Ok(guesses.possibleAnswers[0])
      ensures |guesses.possibleAnswers| > 1 ==>
        && SameLength(guesses.possibleAnswers, |guesses.possibleAnswers[0]|)
        && exists k :: FirstMaxAt(FrequencyScores(guesses.possibleAnswers), k) && r == Ok(guesses.possibleAnswers[k])
    {
      if feedback.Some? {
        guesses.EliminateWords(feedback.value, isPossibleWord);
      }
      var possibleWords := guesses.PossibleAnswers();
      if |possibleWords| == 0 {
        return Err(NoCandidates);
      }
      if |possibleWords| == 1 {
        return Ok(possibleWords[0]);
      }
      ScoresPositive(possibleWords, dictionary.wordLength);
      assert FrequencyScores(possibleWords)[0] >= 1;
      var best := FindBestWord(possibleWords);
      r := Ok(best.value);
    }

    /** reset: a fresh candidate list from the dictionary's answers. */
    method Reset()
      modifies this
      ensures fresh(guesses)
      ensures guesses.allWords == dictionary && guesses.possibleAnswers == dictionary.answerWords
      ensures dictionary.WellFormed() ==> Valid()
    {
      guesses := new WordleWordList(dictionary);
    }
  }

  /** In a non-empty list of words of length at least 1, every score is positive. */
  lemma ScoresPositive(words: seq<string>, k: nat)
    requires |words| > 0 && k >= 1 && SameLength(words, k)
    ensures forall j :: 0 <= j < |words| ==> FrequencyScores(words)[j] >= 1
  {
    forall j | 0 <= j < |words|
      ensures FrequencyScores(words)[j] >= 1
    {
      ScoreBounds(words, words[j], k);
      assert words[j][..k] == words[j];
    }
  }
}
