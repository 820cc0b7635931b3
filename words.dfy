/** The values the core passes around: per-letter outcomes, feedback words and
    the dictionary it is given. WordleWord, AnswerType and Dictionary are
    collaborators whose classes are not part of this model; only what the core
    relies on is kept. */
module Words {
  import opened Sequences

  /** The classification of one letter of a guess. */
  datatype AnswerType = Correct | Misplaced | Wrong

  /** A guess together with one outcome per letter. Equality is structural, as
      the grouping by feedback in MyStrategy needs. */
  datatype WordleWord = WordleWord(word: string, feedback: seq<AnswerType>)

  /** The marker matchWord writes over a letter of the answer it has used up. */
  const Consumed: char := '-'

  /** A word of exactly `k` lower-case letters a..z. */
  predicate IsLowerWord(w: string, k: nat)
  {
    |w| == k && forall i :: 0 <= i < |w| ==> 'a' <= w[i] <= 'z'
  }

  /** Every word has length `k`. */
  predicate SameLength(words: seq<string>, k: nat)
  {
    forall w :: w in words ==> |w| == k
  }

  /** What the core may assume of a list of candidates drawn from a well-formed
      dictionary: lower-case words of one length, none repeated. */
  ghost predicate WellFormedList(words: seq<string>, k: nat)
  {
    (forall w :: w in words ==> IsLowerWord(w, k)) && Distinct(words)
  }

  /** The dictionary collaborator: the word length, the answer list and the
      legality check on guesses. */
  datatype Dictionary = Dictionary(wordLength: nat, answerWords: seq<string>, isLegalGuess: string -> bool)
  {
    ghost predicate WellFormed()
    {
      wordLength >= 1 && WellFormedList(answerWords, wordLength)
    }
  }

  /** A lower-case word never contains the consumed-letter marker. */
  lemma LowerWordHasNoMarker(w: string, k: nat)
    requires IsLowerWord(w, k)
    ensures Consumed !in w
  {
  }

  /** String.toLowerCase on the letters A..Z; every other character is kept. */
  function ToLower(s: string): (r: string)
    ensures |r| == |s|
    ensures forall i :: 0 <= i < |r| ==> !('A' <= r[i] <= 'Z')
    ensures forall i :: 0 <= i < |s| && !('A' <= s[i] <= 'Z') ==> r[i] == s[i]
    ensures forall i :: 0 <= i < |s| && 'A' <= s[i] <= 'Z' ==>
      'a' <= r[i] <= 'z' && r[i] as int - 'a' as int == s[i] as int - 'A' as int
  {
    seq(|s|, i requires 0 <= i < |s| => if 'A' <= s[i] <= 'Z' then (s[i] as int + 32) as char else s[i])
  }

  /** Lower-casing a lower-cased word changes nothing. */
  lemma ToLowerIdempotent(s: string)
    ensures ToLower(ToLower(s)) == ToLower(s)
  {
  }
}
