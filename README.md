# Wordle solver decision engine, in Dafny

This project models the decision engine of a Java Wordle solver. It has four parts:

- **Feedback rule** (`WordleAnswer.matchWord`, module `Answer`). The rule classifies each letter of a guess against the hidden answer as CORRECT, MISPLACED or WRONG.
- **Candidate list** (`WordleWordList`, module `WordList`). This is the list of answers still possible. Feedback narrows it.
- **Frequency strategy** (`FrequencyStrategy`, module `Frequency`). It counts letters per position over the candidates, scores each word by the counts of its letters, and guesses the first word with the top score.
- **Minimax strategy** (`MyStrategy`, module `Minimax`):
  - It adjusts the frequency score: it adds one point per distinct letter, then halves the total when a letter repeats.
  - It shortlists every word tied at the top score.
  - When there are more candidates than letters in a word, it picks the shortlisted word whose largest feedback group is smallest. Ties go to the earliest word.

Supporting modules:

- `Wrappers`: Option, Result, and one error per kind of exception the core throws.
- `Words`: the feedback values and the dictionary, as values.
- `Sequences`: filtering, subsequences, first index, first-occurrence removal and maxima.
- `Tallies`: the sum of a map's values.
- `Grouping`: the one-pass grouping of a list into a map of lists.

### Models and what they are checked against

Code that changes state is modelled as imperative Dafny. Each such method is proved against a specification function:

- `MatchWord` fills a feedback array and overwrites consumed letters of an array copy of the answer. It is proved equal to `Match`, which is built from `StepAt`, `CopyAfter` and `Outcomes`.
- `GetFrequencyForEachPos` fills one count map per position in nested loops. It is proved equal to `FrequencyTable`.
- The score loops are proved equal to `Score` and `AdjustedScore`.
- The scans in both `findBestWord`s are proved to pick the first maximum (`FirstMaxAt`). For MyStrategy, the ties are also proved to be `Shortlist`.
- `getEliminationWord` groups by feedback in a map. It is proved to return the first shortlisted word with the smallest largest group (`BestEliminator`).
- `WordleWordList`, `FrequencyStrategy` and `MyStrategy` are classes whose methods reassign the candidate field.

### The feedback rule as written

The feedback rule is modelled exactly as the code writes it. The code does not use the usual two-pass Wordle rule. It makes one left-to-right pass over a copy of the answer, taking at each position the first unused occurrence of the letter:

- If that occurrence sits at the same position, the letter is CORRECT and the occurrence is consumed.
- If the guess has the same letter at that occurrence's position, the letter is WRONG and nothing is consumed.
- Otherwise the letter is MISPLACED and the occurrence is consumed.
- If no unused occurrence is left, the letter is WRONG.

So guess "ba" against answer "aa" gives [WRONG, MISPLACED], although the second letters agree (`SinglePassExample`). The properties below hold for this rule as written. The model does not add a two-pass rule.

### Main results

- The matcher never credits a letter more often than the answer holds it.
- CORRECT only where the letters agree.
- A word matched against itself is all CORRECT.
- The only candidate that returns the all-CORRECT feedback to a guess is the guess itself.
- Hence, with two or more candidates, `getEliminationWord` always returns one of the candidates and never null (`EliminatorExists`).
- Both strategies' `makeGuess` return a candidate whenever one is left, provided the dictionary is well formed: word length at least 1, lower-case words of that length, and no answer repeated (the class invariant `Valid()`).

## Model

Source paths are relative to the repository root.

| member | source | states |
|---|---|---|
| Answer.MatchWord | src/main/java/no/uib/inf102/wordle/model/word/WordleAnswer.java:87-117 | Fails with LengthMismatch exactly when guess and answer differ in length. Otherwise it returns a WordleWord that carries the guess unchanged, one outcome per position. Those outcomes are the single-pass rule's (`Match`). |
| Answer.Classify | src/main/java/no/uib/inf102/wordle/model/word/WordleAnswer.java:99-113 | One loop iteration in place. It sets feedback[i] to the outcome of the rule at i, consumes the letter it uses from the answer copy, and leaves every other feedback entry unchanged. |
| Answer.CopyShape | src/main/java/no/uib/inf102/wordle/model/word/WordleAnswer.java:88-109 | Every position of the answer copy holds either the answer's own letter or the consumed marker '-'. |
| Answer.CorrectMeansSameLetter | src/main/java/no/uib/inf102/wordle/model/word/WordleAnswer.java:102-104 | If a guess without '-' gets CORRECT at i, then guess[i] == answer[i]. |
| Answer.AllCorrectMeansEqual | src/main/java/no/uib/inf102/wordle/model/word/WordleAnswer.java:98-116 | An all-CORRECT feedback for a guess without '-' means the guess is the answer. |
| Answer.SelfMatchPrefix | src/main/java/no/uib/inf102/wordle/model/word/WordleAnswer.java:99-104 | When a word without '-' is matched against itself, the copy after i steps is '-' below i and the word from i on. So indexOf finds i, and position i is CORRECT. |
| Answer.SelfMatchAllCorrect | src/main/java/no/uib/inf102/wordle/model/word/WordleAnswer.java:99-104 | matchWord(w, w) is CORRECT at every position, for any w without '-'. |
| Answer.AbsentLetterIsWrong | src/main/java/no/uib/inf102/wordle/model/word/WordleAnswer.java:101-113 | A letter missing from the remaining copy is WRONG. A letter (other than '-') that the answer never had is always missing from it. |
| Answer.LookAheadIsWrong | src/main/java/no/uib/inf102/wordle/model/word/WordleAnswer.java:105-106 | Suppose the first unused occurrence is at j != i and guess[j] is the same letter. Then position i is WRONG and the copy is left as it was. |
| Answer.ConsumeCount | src/main/java/no/uib/inf102/wordle/model/word/WordleAnswer.java:104-109 | Writing '-' over a copy position removes one occurrence of the letter that was there and none of any other letter. |
| Answer.StepCount | src/main/java/no/uib/inf102/wordle/model/word/WordleAnswer.java:100-113 | A position is CORRECT or MISPLACED exactly when its step consumes one occurrence of its letter from the copy. |
| Answer.CreditedPlusLeft | src/main/java/no/uib/inf102/wordle/model/word/WordleAnswer.java:98-114 | After i steps, for every letter, occurrences left in the copy plus non-WRONG positions carrying it so far = occurrences in the answer. |
| Answer.CreditBound | src/main/java/no/uib/inf102/wordle/model/word/WordleAnswer.java:98-114 | For every letter, the non-WRONG positions carrying it are at most its number of occurrences in the answer. |
| Answer.SinglePassExample | src/main/java/no/uib/inf102/wordle/model/word/WordleAnswer.java:98-114 | Guess "ba" against answer "aa" gives [WRONG, MISPLACED], although position 1 agrees. |
| Answer.WordleAnswer.constructor | src/main/java/no/uib/inf102/wordle/model/word/WordleAnswer.java:43-46 | Stores the answer lower-cased, and the dictionary. |
| Answer.WordleAnswer.MakeGuess | src/main/java/no/uib/inf102/wordle/model/word/WordleAnswer.java:71-77 | Fails with IllegalGuess exactly when the dictionary rejects the guess. Otherwise it returns matchWord(guess, answer). Guessing the answer itself gives all CORRECT. |
| Words.ToLower | src/main/java/no/uib/inf102/wordle/model/word/WordleAnswer.java:44 | Keeps the length, maps each letter A..Z to the same letter in a..z, and keeps every other character. |
| Words.ToLowerIdempotent | src/main/java/no/uib/inf102/wordle/model/word/WordleAnswer.java:44 | Lower-casing twice is lower-casing once. |
| Words.LowerWordHasNoMarker | src/main/java/no/uib/inf102/wordle/model/word/WordleAnswer.java:104-109 | A word of lower-case letters never contains the marker '-'. |
| Sequences.IndexOf | src/main/java/no/uib/inf102/wordle/model/word/WordleAnswer.java:101-102 | Returns -1 exactly when the value is absent. Otherwise it returns a position holding the value with no earlier occurrence. |
| Sequences.RemoveFirst | src/main/java/no/uib/inf102/wordle/model/word/WordleWordList.java:104-106 | Leaves the list as it was when the value is absent. Otherwise it deletes the first occurrence: the elements before it stay in place, the ones after it move up by one, and the list is one shorter. |
| WordList.ReplaceCharAt | src/main/java/no/uib/inf102/wordle/model/word/WordleWordList.java:74-88 | Fails with IndexOutOfBounds exactly when the index is outside the string. Otherwise the result has the same length, the new character at the index, and every other character unchanged. |
| WordList.EliminateKeepsExactly | src/main/java/no/uib/inf102/wordle/model/word/WordleWordList.java:64-72 | A word survives exactly when it was a candidate and isPossibleWord accepts it, with its multiplicity kept. The survivors form a subsequence of the old list. |
| WordList.EliminateIdempotent | src/main/java/no/uib/inf102/wordle/model/word/WordleWordList.java:64-72 | Eliminating twice with the same feedback equals eliminating once. |
| WordList.EliminateKeepsAnswer | src/main/java/no/uib/inf102/wordle/model/word/WordleWordList.java:64-72 | If isPossibleWord accepts the true answer for a feedback, eliminating with that feedback keeps the answer. |
| WordList.EliminateWellFormed | src/main/java/no/uib/inf102/wordle/model/word/WordleWordList.java:64-72 | Filtering a list of distinct lower-case words of one length leaves such a list. |
| WordList.RemoveWellFormed | src/main/java/no/uib/inf102/wordle/model/word/WordleWordList.java:104-106 | Removing a word from such a list leaves such a list. |
| WordList.WordleWordList.constructor | src/main/java/no/uib/inf102/wordle/model/word/WordleWordList.java:35-38 | The candidates start as the dictionary's answer list. The dictionary is a value, so later filtering never changes it. |
| WordList.WordleWordList.PossibleAnswers | src/main/java/no/uib/inf102/wordle/model/word/WordleWordList.java:54-56 | A read-only view: exactly the candidates, as many as Size() says. |
| WordList.WordleWordList.Size | src/main/java/no/uib/inf102/wordle/model/word/WordleWordList.java:95-97 | The number of candidates. |
| WordList.WordleWordList.EliminateWords | src/main/java/no/uib/inf102/wordle/model/word/WordleWordList.java:64-72 | The new candidates are those isPossibleWord accepts, in order. The size does not grow, and well-formedness is kept. |
| WordList.WordleWordList.Remove | src/main/java/no/uib/inf102/wordle/model/word/WordleWordList.java:104-106 | Deletes only the first occurrence: the words before it stay in place and the words after it move up by one, so the size drops by one. If the word is absent, nothing changes. Well-formedness is kept. |
| Tallies.TotalBump | src/main/java/no/uib/inf102/wordle/controller/AI/FrequencyStrategy.java:109 | put(c, getOrDefault(c, 0) + 1) raises the sum of the map's values by exactly one. |
| Frequency.CountsPrefixStep | src/main/java/no/uib/inf102/wordle/controller/AI/FrequencyStrategy.java:106-110 | Visiting one more word adds one to the entry of its letter at each position. |
| Frequency.CountsSpec | src/main/java/no/uib/inf102/wordle/controller/AI/FrequencyStrategy.java:106-111 | Position i's map gives, for each letter, the number of words with that letter at i. A letter is a key exactly when that number is positive. The entries add up to the number of words. |
| Frequency.GetFrequencyForEachPos | src/main/java/no/uib/inf102/wordle/controller/AI/FrequencyStrategy.java:95-114 | On a non-empty list of words of one length, the arrays filled by the nested loops equal FrequencyTable. |
| Frequency.FrequencyTableSpec | src/main/java/no/uib/inf102/wordle/controller/AI/FrequencyStrategy.java:95-114 | The table has as many maps as the first word has letters. Entry [i][c] is the number of words with c at i, absent exactly when that number is 0. Each map sums to the number of words. |
| Frequency.ScorePrefixStep | src/main/java/no/uib/inf102/wordle/controller/AI/FrequencyStrategy.java:79-82 | One more position adds frequency[i].getOrDefault(word[i], 0) to the score. |
| Frequency.EntryBounds | src/main/java/no/uib/inf102/wordle/controller/AI/FrequencyStrategy.java:75-85 | Against its own list's table, a candidate's letter at i counts at least 1 and at most the number of candidates. |
| Frequency.ScoreBounds | src/main/java/no/uib/inf102/wordle/controller/AI/FrequencyStrategy.java:75-85 | Against its own list's table, a candidate's score over its first n letters is between n and n times the number of candidates. |
| Frequency.GiveScoreToWord | src/main/java/no/uib/inf102/wordle/controller/AI/FrequencyStrategy.java:75-85 | The loop's sum is Score: the sum over positions of the table entry for the word's letter, 0 when absent. |
| Frequency.ScoresPositive | src/main/java/no/uib/inf102/wordle/controller/AI/FrequencyStrategy.java:47-65 | In a non-empty list of words of length at least 1, every frequency score is at least 1. So findBestWord never returns null from makeGuess. |
| Frequency.FrequencyStrategy.constructor | src/main/java/no/uib/inf102/wordle/controller/AI/FrequencyStrategy.java:19-22 | Starts from a fresh candidate list holding the dictionary's answers. |
| Frequency.FrequencyStrategy.FindBestWord | src/main/java/no/uib/inf102/wordle/controller/AI/FrequencyStrategy.java:47-65 | Returns null exactly when every score is 0. Otherwise it returns the word at the first position of the maximum score (strict `>`). |
| Frequency.FrequencyStrategy.MakeGuess | src/main/java/no/uib/inf102/wordle/controller/AI/FrequencyStrategy.java:24-38 | Filters only on a non-null feedback. Fails (NoCandidates) exactly when no candidate is left. Returns the sole candidate when one is left, and otherwise the first top-scoring candidate. Always returns a candidate. |
| Frequency.FrequencyStrategy.Reset | src/main/java/no/uib/inf102/wordle/controller/AI/FrequencyStrategy.java:116-119 | Replaces the candidate list with a fresh copy of the dictionary's answers. |
| Minimax.LettersAppend | src/main/java/no/uib/inf102/wordle/controller/AI/MyStrategy.java:87 | Adding a letter to the HashSet gives the old letters plus that letter. |
| Minimax.LettersPrefixStep | src/main/java/no/uib/inf102/wordle/controller/AI/MyStrategy.java:81-90 | One more position adds its letter to the set of distinct letters. |
| Minimax.DuplicateAppend | src/main/java/no/uib/inf102/wordle/controller/AI/MyStrategy.java:86-89 | Appending a letter creates a repeat exactly when the letter was already present. |
| Minimax.DuplicateIffFewerLetters | src/main/java/no/uib/inf102/wordle/controller/AI/MyStrategy.java:78-98 | A word repeats a letter exactly when it has fewer distinct letters than positions. It never has more. |
| Minimax.AdjustedScoreCases | src/main/java/no/uib/inf102/wordle/controller/AI/MyStrategy.java:75-101 | A word without repeats scores its frequency score plus its length. Any other word scores (frequency score + distinct letters) / 2, rounded down. |
| Minimax.AdjustedScoreBounds | src/main/java/no/uib/inf102/wordle/controller/AI/MyStrategy.java:75-101 | Against its own list's table, a candidate of length at least 1 scores between 1 and length × candidates + length. |
| Minimax.MyStrategy.GiveScoreToWord | src/main/java/no/uib/inf102/wordle/controller/AI/MyStrategy.java:75-101 | The loop with its HashSet and duplicate flag computes AdjustedScore. |
| Minimax.MyScoresPositive | src/main/java/no/uib/inf102/wordle/controller/AI/MyStrategy.java:54-66 | In a non-empty list of words of length at least 1, every adjusted score is at least 1. |
| Minimax.ScoresAgainstAt | src/main/java/no/uib/inf102/wordle/controller/AI/MyStrategy.java:54-55 | The j-th score of the scan is the adjusted score of the j-th word. |
| Minimax.MyScoresAt | src/main/java/no/uib/inf102/wordle/controller/AI/MyStrategy.java:48-55 | The j-th score against the candidates' own table is the adjusted score of the j-th candidate. |
| Minimax.TiedWithStep | src/main/java/no/uib/inf102/wordle/controller/AI/MyStrategy.java:63-64 | One more word extends the ties with it exactly when its score is the top score. |
| Minimax.TiedWithNone | src/main/java/no/uib/inf102/wordle/controller/AI/MyStrategy.java:58-62 | Nothing ties with a score no word has: a new maximum restarts the list with a single word. |
| Minimax.TiedWithMember | src/main/java/no/uib/inf102/wordle/controller/AI/MyStrategy.java:54-66 | A word is tied exactly when some position holds it with the top score. |
| Minimax.TiedWithWithin | src/main/java/no/uib/inf102/wordle/controller/AI/MyStrategy.java:54-66 | Every tied word is one of the words. |
| Minimax.TiedWithSubsequence | src/main/java/no/uib/inf102/wordle/controller/AI/MyStrategy.java:54-66 | The ties keep list order: they form a subsequence of the words. |
| Minimax.ScanStep | src/main/java/no/uib/inf102/wordle/controller/AI/MyStrategy.java:57-65 | Each branch keeps the scan invariant: a higher score clears and restarts the ties, an equal score appends, a lower score changes nothing. |
| Minimax.ScanComplete | src/main/java/no/uib/inf102/wordle/controller/AI/MyStrategy.java:54-66 | After the scan, bestScore is the maximum and bestWords holds all words with it, in order. bestWord is null exactly when the maximum is 0, and otherwise it is the word at the maximum's first position. |
| Minimax.Shortlist | src/main/java/no/uib/inf102/wordle/controller/AI/MyStrategy.java:52-66 | Every shortlisted word has the first candidate's length. |
| Minimax.ShortlistSpec | src/main/java/no/uib/inf102/wordle/controller/AI/MyStrategy.java:52-66 | A word is shortlisted exactly when it is a candidate with the maximum adjusted score. The shortlist is non-empty and is a subsequence of the candidates. |
| Minimax.MyStrategy.CollectBestWords | src/main/java/no/uib/inf102/wordle/controller/AI/MyStrategy.java:49-66 | bestWords holds exactly the words with the maximum score, in order. bestWord is null exactly when that maximum is 0, and otherwise it is the word at the maximum's first position. |
| Minimax.MyStrategy.FindBestWord | src/main/java/no/uib/inf102/wordle/controller/AI/MyStrategy.java:47-73 | With more candidates than letters, it returns getEliminationWord's choice among the shortlist. Otherwise it returns the first top-scoring word, or null when every score is 0. |
| Grouping.GroupBySpec | src/main/java/no/uib/inf102/wordle/controller/AI/MyStrategy.java:127-131 | A key's group holds exactly the items with that key, as many as the key occurs. |
| Grouping.GroupsByStep | src/main/java/no/uib/inf102/wordle/controller/AI/MyStrategy.java:128-131 | One more item is appended to its key's list, which is created empty on first sight. |
| Grouping.GroupsBySpec | src/main/java/no/uib/inf102/wordle/controller/AI/MyStrategy.java:120-132 | The map's keys are the keys that occur, and each maps to its group. |
| Grouping.GroupsByPartition | src/main/java/no/uib/inf102/wordle/controller/AI/MyStrategy.java:120-132 | The group sizes add up to the number of items. |
| Grouping.LargestGroupOfMap | src/main/java/no/uib/inf102/wordle/controller/AI/MyStrategy.java:134-140 | Any value that bounds every list of the map and is the size of one of them (or 0) is the largest group size, whatever the visiting order. |
| Grouping.LargestGroupBounds | src/main/java/no/uib/inf102/wordle/controller/AI/MyStrategy.java:134-140 | The largest group is at most all the items and at least one when there are items. It is smaller than all of them exactly when two items have different keys. |
| Minimax.FeedbackGroupsSpec | src/main/java/no/uib/inf102/wordle/controller/AI/MyStrategy.java:120-132 | A feedback is a key exactly when some candidate produces it. Its list holds exactly the candidates that produce it. The lists partition the candidates, so their sizes sum to the candidate count. |
| Minimax.WorstCaseBounds | src/main/java/no/uib/inf102/wordle/controller/AI/MyStrategy.java:134-140 | The largest feedback group is at most the candidate count and at least 1 when there is a candidate. It is smaller than the count exactly when two candidates get different feedback. |
| Minimax.OnlyItselfGivesSelfFeedback | src/main/java/no/uib/inf102/wordle/controller/AI/MyStrategy.java:125 | Only the guess itself produces the guess's self-match feedback. |
| Minimax.CandidateGuessSplits | src/main/java/no/uib/inf102/wordle/controller/AI/MyStrategy.java:120-140 | A guess that is a candidate, with another candidate left, has a largest group below the candidate count. |
| Minimax.WorstCasesAt | src/main/java/no/uib/inf102/wordle/controller/AI/MyStrategy.java:117-140 | The j-th worst case is the largest feedback group of the j-th shortlisted word. |
| Minimax.MinScanStep | src/main/java/no/uib/inf102/wordle/controller/AI/MyStrategy.java:142-145 | Only a strictly smaller largest group replaces the best guess, and both branches keep the scan invariant. |
| Minimax.MinScanComplete | src/main/java/no/uib/inf102/wordle/controller/AI/MyStrategy.java:113-148 | After the scan, the best guess is null exactly when no worst case is below the starting count. Otherwise it is at the first position of the smallest worst case. |
| Minimax.MyStrategy.GroupByFeedback | src/main/java/no/uib/inf102/wordle/controller/AI/MyStrategy.java:120-132 | The map built by the inner loop groups the candidates by the feedback matchWord gives them for the guess. |
| Minimax.MyStrategy.LargestGroupSize | src/main/java/no/uib/inf102/wordle/controller/AI/MyStrategy.java:134-140 | The result bounds every group's size and is the size of one of them, or 0 when there is none. |
| Minimax.MyStrategy.WorstCaseOf | src/main/java/no/uib/inf102/wordle/controller/AI/MyStrategy.java:120-140 | Grouping then measuring gives the size of the guess's largest feedback group. |
| Minimax.MyStrategy.ShortlistedWorstCase | src/main/java/no/uib/inf102/wordle/controller/AI/MyStrategy.java:117-140 | The loop body for the n-th shortlisted guess computes its worst case. |
| Minimax.MyStrategy.GetEliminationWord | src/main/java/no/uib/inf102/wordle/controller/AI/MyStrategy.java:111-149 | Returns null exactly when no shortlisted guess has a worst case below the candidate count. Otherwise it returns the first shortlisted guess with the smallest worst case (strict `<`). |
| Minimax.EliminatorChosen | src/main/java/no/uib/inf102/wordle/controller/AI/MyStrategy.java:142-148 | If some shortlisted guess beats the candidate count, the choice is a shortlisted guess and not null. |
| Minimax.EliminatorExists | src/main/java/no/uib/inf102/wordle/controller/AI/MyStrategy.java:111-148 | With at least two distinct lower-case candidates, getEliminationWord returns a candidate, never null. |
| Minimax.MyStrategy.constructor | src/main/java/no/uib/inf102/wordle/controller/AI/MyStrategy.java:18-21 | Starts from a fresh candidate list holding the dictionary's answers. |
| Minimax.MyStrategy.MakeGuess | src/main/java/no/uib/inf102/wordle/controller/AI/MyStrategy.java:24-37 | Filters only on a non-null feedback. Fails (NoCandidates) exactly when no candidate is left. Returns the sole candidate when one is left. With up to word-length candidates it returns the first top-scoring one, and otherwise the minimax choice, never null. |
| Minimax.MyStrategy.Reset | src/main/java/no/uib/inf102/wordle/controller/AI/MyStrategy.java:151-154 | Replaces the candidate list with a fresh copy of the dictionary's answers. |

## Left out

- `WordleWord.isPossibleWord`: its class is not part of this model. Elimination takes it as the parameter `isPossibleWord`, with no assumption about its rule. Keeping the answer is therefore stated under the hypothesis that it accepts the answer (`EliminateKeepsAnswer`).
- The `Dictionary` class is not part of this model. Word loading is left out. The answer list, the word length and `isLegalGuess` are fields of a `Dictionary` value. `getAllWords` and `wordLength` are that field and its length.
- `WordleWord` and `AnswerType`: their classes are not part of this model. Feedback is the value `WordleWord(word, feedback)`, and its equality (and hash) is structural.
- Random answer selection (the `Random` constructors and `getRandomWordleAnswer`) is left out: it is nondeterministic library behaviour.
- `IStrategy` is left out: it is an interface with no behaviour of its own.
- Exceptions are `Err` results. These cover matchWord's length check, makeGuess's legality check, replaceCharAt's range check, and the `get(0)` on an empty candidate list in both `makeGuess`s.
- Candidate lists mixing word lengths are not covered: the scoring members require words of one length, which every well-formed dictionary gives. In the Java, a later word longer than the first throws an index exception while it is counted or scored. A shorter one is counted and scored over its own letters, with no exception. In MyStrategy, a length mismatch makes matchWord throw IllegalArgumentException.
- Frequency.FrequencyStrategy.MakeGuess: requires the class invariant `Valid()`, which takes the dictionary to be well formed. That means word length at least 1, lower-case words of that length, and no repeated answer. The Java does not check any of this. Its never-null result needs only the one word length of at least 1. With word length 0 every score is 0, and the Java returns null.
- Minimax.MyStrategy.MakeGuess: requires the same `Valid()`. The never-null result (and `Minimax.EliminatorExists`) relies on the answers being distinct. With a repeated answer, the Java can return null. For example, with word length 1 and answers ["a", "a"], both candidates fall into one feedback group of size 2, which is not below 2. The model does not cover that case.
- Minimax.MyStrategy.GetEliminationWord: the Java reads the candidates again from `guesses.possibleAnswers()`. The model takes them as the parameter `candidates`. At the only call site this is the list findBestWord was given.
- Minimax.MyStrategy.LargestGroupSize: HashMap iteration order is not modelled. The loop visits the keys in an unspecified order, and the result is proved independent of it.
- Answer.MatchWord: the ArrayList copy of the answer is an `array<char>`.
- Answer.CorrectMeansSameLetter: stated for guesses without the marker '-'. A guess containing '-' can match a consumed position, and guesses are lower-case words in the game.
- Answer.AllCorrectMeansEqual: stated for guesses without the marker '-', for the same reason.
- Answer.SelfMatchAllCorrect: stated for words without the marker '-', for the same reason.
- Answer.WordleAnswer.MakeGuess: the self-match clause is stated for answers without the marker '-', for the same reason.
- Words.ToLower: maps only the letters A..Z. Unicode case mapping is left out.
- Java `int` overflow in the scores and counts is not modelled: the counts are bounded by the list size.
