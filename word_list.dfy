/** WordleWordList: the answers still possible in a game, narrowed by feedback.

    WordleWord.isPossibleWord decides whether a word is consistent with a
    feedback; its class is not part of this model, so every operation that
    filters takes it as the parameter `isPossibleWord` and nothing is assumed
    about it. */
module WordList {
  import opened Wrappers
  import opened Sequences
  import opened Words

  /** The test eliminateWords applies to each word, for one feedback. */
  function Keeps(feedback: WordleWord, isPossibleWord: (string, WordleWord) -> bool): string -> bool
  {
    w => isPossibleWord(w, feedback)
  }

  /** The candidates eliminateWords keeps. */
  function Eliminate(words: seq<string>, feedback: WordleWord, isPossibleWord: (string, WordleWord) -> bool): seq<string>
  {
    Select(words, Keeps(feedback, isPossibleWord))
  }

  /** A word survives exactly when it was a candidate and isPossibleWord
      accepts it, as often as it occurred before; survivors keep their order. */
  lemma EliminateKeepsExactly(words: seq<string>, feedback: WordleWord, isPossibleWord: (string, WordleWord) -> bool, w: string)
    ensures w in Eliminate(words, feedback, isPossibleWord) <==> w in words && isPossibleWord(w, feedback)
    ensures multiset(Eliminate(words, feedback, isPossibleWord))[w]
      == if isPossibleWord(w, feedback) then multiset(words)[w] else 0
    ensures IsSubsequence(Eliminate(words, feedback, isPossibleWord), words)
  {
    SelectCount(words, Keeps(feedback, isPossibleWord), w);
    SelectIsSubsequence(words, Keeps(feedback, isPossibleWord));
  }

  /** Eliminating with the same feedback a second time removes nothing more. */
  lemma EliminateIdempotent(words: seq<string>, feedback: WordleWord, isPossibleWord: (string, WordleWord) -> bool)
    ensures Eliminate(Eliminate(words, feedback, isPossibleWord), feedback, isPossibleWord)
      == Eliminate(words, feedback, isPossibleWord)
  {
    SelectIdempotent(words, Keeps(feedback, isPossibleWord));
  }

  /** Soundness, as far as it can be stated without isPossibleWord's rule: if
      isPossibleWord accepts the true answer for the feedback it produced, the
      answer is never eliminated. */
  lemma EliminateKeepsAnswer(words: seq<string>, answer: string, feedback: WordleWord, isPossibleWord: (string, WordleWord) -> bool)
    requires answer in words
    requires isPossibleWord(answer, feedback)
    ensures answer in Eliminate(words, feedback, isPossibleWord)
  {
    SelectCount(words, Keeps(feedback, isPossibleWord), answer);
  }

  /** Filtering a well-formed list leaves a well-formed list. */
  lemma EliminateWellFormed(words: seq<string>, k: nat, feedback: WordleWord, isPossibleWord: (string, WordleWord) -> bool)
    requires WellFormedList(words, k)
    ensures WellFormedList(Eliminate(words, feedback, isPossibleWord), k)
  {
    SelectDistinct(words, Keeps(feedback, isPossibleWord));
    forall w | w in Eliminate(words, feedback, isPossibleWord)
      ensures IsLowerWord(w, k)
    {
      SelectCount(words, Keeps(feedback, isPossibleWord), w);
    }
  }

  /** Removing one occurrence from a well-formed list leaves a well-formed list. */
  lemma RemoveWellFormed(words: seq<string>, k: nat, answer: string)
    requires WellFormedList(words, k)
    ensures WellFormedList(RemoveFirst(words, answer), k)
  {
    var r := RemoveFirst(words, answer);
    forall w | w in r
      ensures IsLowerWord(w, k)
    {
      assert multiset(r)[w] > 0;
    }
    forall i, j | 0 <= i < j < |r|
      ensures r[i] != r[j]
    {
      TwoPositionsCount(r, i, j);
      DistinctCount(words, r[i]);
    }
  }

  /** WordleWordList.replaceCharAt: a copy of `s` with position `index` set to
      `newChar`, or the exception for an index outside the string. */
  method ReplaceCharAt(s: string, index: int, newChar: char) returns (r: Result<string>)
    ensures r.Err? <==> index < 0 || index >= |s|
    ensures r.Err? ==> r.error == IndexOutOfBounds
    ensures r.Ok? ==> |r.value| == |s| && r.value[index] == newChar
    ensures r.Ok? ==> forall k :: 0 <= k < |s| && k != index ==> r.value[k] == s[k]
  {
    if index < 0 || index >= |s| {
      return Err(IndexOutOfBounds);
    }
    var sb := new char[|s|];
    for k := 0 to |s|
      invariant sb[..k] == s[..k]
    {
      sb[k] := s[k];
    }
    sb[index] := newChar;
    return Ok(sb[..]);
  }

  /** The list of answers still possible, with the dictionary it came from. */
  class WordleWordList {
    const allWords: Dictionary
    var possibleAnswers: seq<string>

    /** The candidates are lower-case words of the dictionary's length, none
        repeated, and the dictionary itself is well formed. */
    ghost predicate Valid()
      reads this
    {
      allWords.WellFormed() && WellFormedList(possibleAnswers, allWords.wordLength)
    }

    /** WordleWordList(Dictionary): starts from a copy of the answer list. */
    constructor(dictionary: Dictionary)
      ensures allWords == dictionary && possibleAnswers == dictionary.answerWords
      ensures dictionary.WellFormed() ==> Valid()
    {
      allWords := dictionary;
      possibleAnswers := dictionary.answerWords;
    }

    /** possibleAnswers(): a read-only view of the candidates. */
    function PossibleAnswers(): (r: seq<string>)
      reads this
      ensures |r| == Size() && forall i :: 0 <= i < |r| ==> r[i] == possibleAnswers[i]
    {
      possibleAnswers
    }

    /** size(): the number of candidates. */
    function Size(): (n: nat)
      reads this
      ensures n == |possibleAnswers|
    {
      |possibleAnswers|
    }

    /** eliminateWords: builds the list of words isPossibleWord accepts and
        replaces the candidates with it. */
    method EliminateWords(feedback: WordleWord, isPossibleWord: (string, WordleWord) -> bool)
      modifies this
      ensures possibleAnswers == Eliminate(old(possibleAnswers), feedback, isPossibleWord)
      ensures |possibleAnswers| <= old(|possibleAnswers|)
      ensures old(Valid()) ==> Valid()
    {
      var answers := possibleAnswers;
      if Valid() {
        EliminateWellFormed(answers, allWords.wordLength, feedback, isPossibleWord);
      }
      var newPossibleAnswers := [];
      for n := 0 to |answers|
        invariant newPossibleAnswers == Eliminate(answers[..n], feedback, isPossibleWord)
      {
        var s := answers[n];
        assert answers[..n + 1] == answers[..n] + [s];
        SelectAppend(answers[..n], s, Keeps(feedback, isPossibleWord));
        if isPossibleWord(s, feedback) {
          newPossibleAnswers := newPossibleAnswers + [s];
        }
      }
      assert answers[..|answers|] == answers;
      possibleAnswers := newPossibleAnswers;
    }

    /** remove(answer): deletes the first occurrence of `answer`, if any; the
        words before it stay in place and the words after it move up by one. */
    method Remove(answer: string)
      modifies this
      ensures possibleAnswers == RemoveFirst(old(possibleAnswers), answer)
      ensures answer in old(possibleAnswers) ==> |possibleAnswers| == old(|possibleAnswers|) - 1
      ensures answer in old(possibleAnswers) ==>
        var k := IndexOf(old(possibleAnswers), answer);
        && (forall i :: 0 <= i < k ==> possibleAnswers[i] == old(possibleAnswers[i]))
        && (forall i :: k <= i < |possibleAnswers| ==> possibleAnswers[i] == old(possibleAnswers[i + 1]))
      ensures answer !in old(possibleAnswers) ==> possibleAnswers == old(possibleAnswers)
      ensures old(Valid()) ==> Valid()
    {
      if Valid() {
        RemoveWellFormed(possibleAnswers, allWords.wordLength, answer);
      }
      possibleAnswers := RemoveFirst(possibleAnswers, answer);
    }
  }
}
