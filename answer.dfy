/** WordleAnswer: the hidden answer and the feedback rule matchWord.

    matchWord makes one left-to-right pass over the guess with a mutable copy
    of the answer. At position i, with letter = guess[i] and j the first index
    of letter in the copy:
      - letter not in the copy:             WRONG;
      - j == i:                             CORRECT, copy[j] is consumed;
      - guess[j] == letter (look-ahead):    WRONG, nothing consumed;
      - otherwise:                          MISPLACED, copy[j] is consumed.
    A consumed letter is overwritten with '-'. This is not the usual two-pass
    Wordle rule: guess "ba" against answer "aa" gives [WRONG, MISPLACED]. */
module Answer {
  import opened Wrappers
  import opened Sequences
  import opened Words

  /** The outcome at one position and the answer copy after it. */
  datatype Step = Step(outcome: AnswerType, copy: string)

  /** One iteration of matchWord's loop, on the copy left by the earlier ones. */
  function StepAt(guess: string, copy: string, i: nat): (s: Step)
    requires |copy| == |guess| && i < |guess|
    ensures |s.copy| == |copy|
  {
    var letter := guess[i];
    if letter in copy then
      var j := IndexOf(copy, letter);
      if j == i then Step(Correct, copy[j := Consumed])
      else if letter == guess[j] then Step(Wrong, copy)
      else Step(Misplaced, copy[j := Consumed])
    else Step(Wrong, copy)
  }

  /** The answer copy after positions 0 .. i-1 have been classified. */
  function CopyAfter(guess: string, answer: string, i: nat): (c: string)
    requires |guess| == |answer| && i <= |guess|
    ensures |c| == |answer|
  {
    if i == 0 then answer else StepAt(guess, CopyAfter(guess, answer, i - 1), i - 1).copy
  }

  /** The outcome matchWord gives position i. */
  function OutcomeAt(guess: string, answer: string, i: nat): AnswerType
    requires |guess| == |answer| && i < |guess|
  {
    StepAt(guess, CopyAfter(guess, answer, i), i).outcome
  }

  function Outcomes(guess: string, answer: string): (r: seq<AnswerType>)
    requires |guess| == |answer|
    ensures |r| == |guess|
  {
    seq(|guess|, i requires 0 <= i < |guess| => OutcomeAt(guess, answer, i))
  }

  /** The WordleWord matchWord builds for two words of equal length. */
  function Feedback(guess: string, answer: string): WordleWord
    requires |guess| == |answer|
  {
    WordleWord(guess, Outcomes(guess, answer))
  }

  /** matchWord as a value: the feedback, or the exception for unequal lengths. */
  function Match(guess: string, answer: string): Result<WordleWord>
  {
    if |guess| != |answer| then Err(LengthMismatch) else Ok(Feedback(guess, answer))
  }

  /** WordleAnswer.matchWord: fills a feedback array in one pass, consuming
      letters of an array copy of the answer. */
  method MatchWord(guess: string, answer: string) returns (r: Result<WordleWord>)
    ensures r == Match(guess, answer)
    ensures r.Err? <==> |guess| != |answer|
    ensures r.Ok? ==> r.value.word == guess && |r.value.feedback| == |guess|
  {
    var answerCopy := new char[|answer|];
    for k := 0 to |answer|
      invariant answerCopy[..k] == answer[..k]
    {
      answerCopy[k] := answer[k];
    }
    assert answerCopy[..] == answerCopy[..|answer|];

    var wordLength := |answer|;
    if |guess| != wordLength {
      return Err(LengthMismatch);
    }

    var feedback := new AnswerType[wordLength];
    for i := 0 to wordLength
      invariant answerCopy[..] == CopyAfter(guess, answer, i)
      invariant forall k :: 0 <= k < i ==> feedback[k] == OutcomeAt(guess, answer, k)
    {
      Classify(guess, answerCopy, feedback, i);
    }
    assert feedback[..] == Outcomes(guess, answer);
    return Ok(WordleWord(guess, feedback[..]));
  }

  /** One iteration of matchWord's loop: classifies position i and consumes
      the letter it uses, if any, from the answer copy. */
  method Classify(guess: string, answerCopy: array<char>, feedback: array<AnswerType>, i: nat)
    requires answerCopy.Length == |guess| == feedback.Length && i < |guess|
    modifies answerCopy, feedback
    ensures answerCopy[..] == StepAt(guess, old(answerCopy[..]), i).copy
    ensures feedback[..] == old(feedback[..])[i := StepAt(guess, old(answerCopy[..]), i).outcome]
  {
    var letter := guess[i];
    if letter in answerCopy[..] {
      var j := IndexOf(answerCopy[..], letter);
      if j == i {
        feedback[i] := Correct;
        answerCopy[j] := Consumed;
      } else if letter == guess[j] {
        feedback[i] := Wrong;
      } else {
        feedback[i] := Misplaced;
        answerCopy[j] := Consumed;
      }
    } else {
      feedback[i] := Wrong;
    }
  }

  /** Every letter of the copy is the answer's letter at that position or the
      consumed marker. */
  lemma {:induction false} CopyShape(guess: string, answer: string, i: nat)
    requires |guess| == |answer| && i <= |guess|
    ensures forall k :: 0 <= k < |answer| ==>
      CopyAfter(guess, answer, i)[k] == answer[k] || CopyAfter(guess, answer, i)[k] == Consumed
  {
    if i > 0 {
      CopyShape(guess, answer, i - 1);
    }
  }

  /** A position is CORRECT only where guess and answer agree. */
  lemma CorrectMeansSameLetter(guess: string, answer: string, i: nat)
    requires |guess| == |answer| && i < |guess|
    requires Consumed !in guess
    requires OutcomeAt(guess, answer, i) == Correct
    ensures guess[i] == answer[i]
  {
    CopyShape(guess, answer, i);
  }

  /** An all-CORRECT result means the guess is the answer. */
  lemma AllCorrectMeansEqual(guess: string, answer: string)
    requires |guess| == |answer|
    requires Consumed !in guess
    requires forall i :: 0 <= i < |guess| ==> Outcomes(guess, answer)[i] == Correct
    ensures guess == answer
  {
    forall i | 0 <= i < |guess|
      ensures guess[i] == answer[i]
    {
      assert Outcomes(guess, answer)[i] == OutcomeAt(guess, answer, i);
      CorrectMeansSameLetter(guess, answer, i);
    }
  }

  /** Matching a word against itself consumes the copy from the left, one
      position at a time, and classifies every position CORRECT. */
  lemma {:induction false} SelfMatchPrefix(w: string, i: nat)
    requires Consumed !in w && i <= |w|
    ensures forall k :: 0 <= k < |w| ==> CopyAfter(w, w, i)[k] == if k < i then Consumed else w[k]
    ensures i < |w| ==> OutcomeAt(w, w, i) == Correct
  {
    if i > 0 {
      SelfMatchPrefix(w, i - 1);
    }
    if i < |w| {
      var c := CopyAfter(w, w, i);
      assert c[i] == w[i];
      assert w[i] !in c[..i];
    }
  }

  lemma SelfMatchAllCorrect(w: string)
    requires Consumed !in w
    ensures forall i :: 0 <= i < |w| ==> Outcomes(w, w)[i] == Correct
  {
    forall i | 0 <= i < |w|
      ensures Outcomes(w, w)[i] == Correct
    {
      SelfMatchPrefix(w, i);
    }
  }

  /** A letter missing from what is left of the answer is WRONG; a letter the
      answer never had is always missing from it. */
  lemma AbsentLetterIsWrong(guess: string, answer: string, i: nat)
    requires |guess| == |answer| && i < |guess|
    requires guess[i] !in CopyAfter(guess, answer, i) || (guess[i] != Consumed && guess[i] !in answer)
    ensures guess[i] !in CopyAfter(guess, answer, i)
    ensures OutcomeAt(guess, answer, i) == Wrong
  {
    CopyShape(guess, answer, i);
  }

  /** The look-ahead rule: when the first unused occurrence of the letter lies
      at another position j and the guess has that very letter at j, the
      position is WRONG and the copy is left as it was. */
  lemma LookAheadIsWrong(guess: string, answer: string, i: nat)
    requires |guess| == |answer| && i < |guess|
    requires var j := IndexOf(CopyAfter(guess, answer, i), guess[i]);
      0 <= j && j != i && guess[j] == guess[i]
    ensures OutcomeAt(guess, answer, i) == Wrong
    ensures CopyAfter(guess, answer, i + 1) == CopyAfter(guess, answer, i)
  {
  }

  /** The number of positions below |fb| whose letter is c and whose outcome is
      not WRONG. */
  function Credited(word: string, fb: seq<AnswerType>, c: char): nat
    requires |word| == |fb|
  {
    if fb == [] then 0
    else Credited(word[..|word| - 1], fb[..|fb| - 1], c) + (if fb[|fb| - 1] != Wrong && word[|word| - 1] == c then 1 else 0)
  }

  /** Overwriting one position with the consumed marker removes one
      occurrence of the letter that was there and none of any other letter. */
  lemma ConsumeCount(copy: string, j: nat, c: char)
    requires j < |copy| && c != Consumed
    ensures multiset(copy[j := Consumed])[c] + (if copy[j] == c then 1 else 0) == multiset(copy)[c]
  {
    assert copy == copy[..j] + [copy[j]] + copy[j + 1..];
    assert copy[j := Consumed] == copy[..j] + [Consumed] + copy[j + 1..];
  }

  /** One step credits its position exactly when it consumes an occurrence of
      the position's letter from the copy. */
  lemma StepCount(guess: string, copy: string, i: nat, c: char)
    requires |copy| == |guess| && i < |guess| && c != Consumed
    ensures var s := StepAt(guess, copy, i);
      multiset(s.copy)[c] + (if s.outcome != Wrong && guess[i] == c then 1 else 0) == multiset(copy)[c]
  {
    if guess[i] in copy {
      var j := IndexOf(copy, guess[i]);
      if j == i || guess[i] != guess[j] {
        ConsumeCount(copy, j, c);
      }
    }
  }

  /** Each CORRECT or MISPLACED position consumes one occurrence of its letter:
      the occurrences left in the copy plus those credited so far are the
      answer's occurrences. */
  lemma {:induction false} CreditedPlusLeft(guess: string, answer: string, i: nat, c: char)
    requires |guess| == |answer| && i <= |guess| && c != Consumed
    ensures multiset(CopyAfter(guess, answer, i))[c] + Credited(guess[..i], Outcomes(guess, answer)[..i], c)
      == multiset(answer)[c]
  {
    if i > 0 {
      var o := Outcomes(guess, answer);
      CreditedPlusLeft(guess, answer, i - 1, c);
      assert guess[..i][..i - 1] == guess[..i - 1];
      assert o[..i][..i - 1] == o[..i - 1];
      assert o[..i][i - 1] == OutcomeAt(guess, answer, i - 1);
      StepCount(guess, CopyAfter(guess, answer, i - 1), i - 1, c);
    }
  }

  /** For every letter, at most as many positions are credited (CORRECT or
      MISPLACED) as the answer has occurrences of it. */
  lemma CreditBound(guess: string, answer: string, c: char)
    requires |guess| == |answer| && c != Consumed
    ensures Credited(guess, Outcomes(guess, answer), c) <= multiset(answer)[c]
  {
    CreditedPlusLeft(guess, answer, |guess|, c);
    assert guess[..|guess|] == guess;
    assert Outcomes(guess, answer)[..|guess|] == Outcomes(guess, answer);
  }

  /** Where this rule and the two-pass rule part ways: the second 'a' of "ba"
      sits where the answer "aa" has an 'a', yet it is MISPLACED, because the
      first unused 'a' of the answer is at position 0. */
  lemma SinglePassExample()
    ensures "ba"[1] == "aa"[1]
    ensures Outcomes("ba", "aa") == [Wrong, Misplaced]
  {
    assert OutcomeAt("ba", "aa", 0) == Wrong;
    assert CopyAfter("ba", "aa", 1) == "aa";
    assert OutcomeAt("ba", "aa", 1) == Misplaced;
  }

  /** The hidden answer of a game. */
  class WordleAnswer {
    const word: string
    const dictionary: Dictionary

    /** WordleAnswer(String, Dictionary): the answer is kept lower-cased. */
    constructor(answer: string, dictionary: Dictionary)
      ensures word == ToLower(answer) && this.dictionary == dictionary
    {
      word := ToLower(answer);
      this.dictionary := dictionary;
    }

    /** WordleAnswer.makeGuess: an illegal guess is rejected, any other is
        matched against the answer. */
    method MakeGuess(wordGuess: string) returns (r: Result<WordleWord>)
      ensures !dictionary.isLegalGuess(wordGuess) ==> r == Err(IllegalGuess)
      ensures dictionary.isLegalGuess(wordGuess) ==> r == Match(wordGuess, word)
      ensures dictionary.isLegalGuess(wordGuess) && wordGuess == word && Consumed !in word ==>
        r.Ok? && forall i :: 0 <= i < |word| ==> r.value.feedback[i] == Correct
    {
      if !dictionary.isLegalGuess(wordGuess) {
        return Err(IllegalGuess);
      }
      r := MatchWord(wordGuess, word);
      if wordGuess == word && Consumed !in word {
        SelfMatchAllCorrect(word);
      }
    }
  }
}
