/** MyStrategy: a frequency score adjusted for distinct letters, and, while
    there are more candidates than letters in a word, a minimax choice among
    the top-scoring words: the one whose largest feedback group is smallest. */
module Minimax {
  import opened Wrappers
  import opened Sequences
  import opened Tallies
  import opened Words
  import opened Answer
  import opened WordList
  import opened Frequency
  import opened Grouping

  /** The distinct letters of a word (the HashSet giveScoreToWord fills). */
  function Letters(w: string): set<char>
  {
    set c | c in w
  }

  /** Some letter occurs at two positions. */
  predicate HasDuplicateLetters(w: string)
  {
    exists i, j :: 0 <= i < j < |w| && w[i] == w[j]
  }

  /** Appending a letter adds it to the distinct letters. */
  lemma LettersAppend(w: string, c: char)
    ensures Letters(w + [c]) == Letters(w) + {c}
  {
    assert forall x :: x in w + [c] <==> x in w || x == c;
  }

  /** Extending a prefix by one position adds that position's letter. */
  lemma LettersPrefixStep(w: string, i: nat)
    requires i < |w|
    ensures Letters(w[..i + 1]) == Letters(w[..i]) + {w[i]}
  {
    assert w[..i + 1] == w[..i] + [w[i]];
    LettersAppend(w[..i], w[i]);
  }

  /** Appending a letter creates a repeat exactly when the letter was already there. */
  lemma DuplicateAppend(w: string, c: char)
    ensures HasDuplicateLetters(w + [c]) <==> HasDuplicateLetters(w) || c in w
  {
    var v := w + [c];
    if HasDuplicateLetters(v) {
      var i, j :| 0 <= i < j < |v| && v[i] == v[j];
      if j < |w| {
        assert w[i] == w[j];
      } else {
        assert w[i] == c;
      }
    }
    if HasDuplicateLetters(w) {
      var i, j :| 0 <= i < j < |w| && w[i] == w[j];
      assert v[i] == v[j];
    }
    if c in w {
      var i :| 0 <= i < |w| && w[i] == c;
      assert v[i] == v[|w|];
    }
  }

  /** A word repeats a letter exactly when it has fewer distinct letters than
      positions: the two ways of looking at the halving rule agree. */
  lemma {:induction false} DuplicateIffFewerLetters(w: string)
    ensures |Letters(w)| <= |w|
    ensures HasDuplicateLetters(w) <==> |Letters(w)| < |w|
  {
    if w == [] {
      assert Letters(w) == {};
    } else {
      var init, last := w[..|w| - 1], w[|w| - 1];
      assert w == init + [last];
      DuplicateIffFewerLetters(init);
      DuplicateAppend(init, last);
      LettersAppend(init, last);
    }
  }

  /** MyStrategy's score: the frequency score plus one point per distinct
      letter, halved (rounding down) when there are fewer distinct letters
      than positions. */
  function AdjustedScore(w: string, frequency: Table): nat
    requires |w| <= |frequency|
  {
    var score := Score(w, frequency) + |Letters(w)|;
    if |Letters(w)| < |w| then score / 2 else score
  }

  /** The halving happens exactly when some letter repeats: a word without a
      repeated letter gets its frequency score plus its length, any other
      word half of its frequency score plus its (fewer) distinct letters. */
  lemma AdjustedScoreCases(w: string, frequency: Table)
    requires |w| <= |frequency|
    ensures !HasDuplicateLetters(w) ==> AdjustedScore(w, frequency) == Score(w, frequency) + |w|
    ensures HasDuplicateLetters(w) ==>
      |Letters(w)| < |w| && AdjustedScore(w, frequency) == (Score(w, frequency) + |Letters(w)|) / 2
  {
    DuplicateIffFewerLetters(w);
  }

  /** A non-empty candidate scored against its own list's table gets at least
      1 and at most one point per candidate and letter, plus its bonus. */
  lemma AdjustedScoreBounds(words: seq<string>, w: string)
    requires |words| > 0 && SameLength(words, |words[0]|) && w in words && |w| >= 1
    ensures 1 <= AdjustedScore(w, FrequencyTable(words)) <= |w| * |words| + |w|
  {
    ScoreBounds(words, w, |w|);
    assert w[..|w|] == w;
    DuplicateIffFewerLetters(w);
    assert w[0] in Letters(w);
  }

  /** The adjusted score of every candidate, in list order. */
  function MyScores(words: seq<string>): (s: seq<nat>)
    requires |words| > 0 && SameLength(words, |words[0]|)
    ensures |s| == |words|
  {
    ScoresAgainst(words, FrequencyTable(words))
  }

  /** The adjusted score of each word against a given table, in list order. */
  function ScoresAgainst(words: seq<string>, frequency: Table): (s: seq<nat>)
    requires forall w :: w in words ==> |w| <= |frequency|
    ensures |s| == |words|
  {
    if words == [] then []
    else ScoresAgainst(words[..|words| - 1], frequency) + [AdjustedScore(words[|words| - 1], frequency)]
  }

  /** Entry `j` of ScoresAgainst is the adjusted score of the `j`-th word. */
  lemma {:induction false} ScoresAgainstAt(words: seq<string>, frequency: Table, j: nat)
    requires forall w :: w in words ==> |w| <= |frequency|
    requires j < |words|
    ensures ScoresAgainst(words, frequency)[j] == AdjustedScore(words[j], frequency)
  {
    if j < |words| - 1 {
      ScoresAgainstAt(words[..|words| - 1], frequency, j);
    }
  }

  /** Entry `j` of MyScores is the adjusted score of the `j`-th candidate. */
  lemma MyScoresAt(words: seq<string>, j: nat)
    requires |words| > 0 && SameLength(words, |words[0]|) && j < |words|
    ensures MyScores(words)[j] == AdjustedScore(words[j], FrequencyTable(words))
  {
    ScoresAgainstAt(words, FrequencyTable(words), j);
  }

  /** The items whose score is `top`, in list order; `scores[k]` is the
      score of `items[k]`. */
  function TiedWith(items: seq<string>, scores: seq<nat>, top: nat): seq<string>
    requires |items| == |scores|
  {
    if items == [] then []
    else
      TiedWith(items[..|items| - 1], scores[..|scores| - 1], top)
        + (if scores[|scores| - 1] == top then [items[|items| - 1]] else [])
  }

  /** Extending both lists by their next position extends the ties by that
      item when its score is `top`. */
  lemma TiedWithStep(items: seq<string>, scores: seq<nat>, top: nat, n: nat)
    requires |items| == |scores| && n < |items|
    ensures TiedWith(items[..n + 1], scores[..n + 1], top)
      == TiedWith(items[..n], scores[..n], top) + (if scores[n] == top then [items[n]] else [])
  {
    assert items[..n + 1][..n] == items[..n];
    assert scores[..n + 1][..n] == scores[..n];
  }

  /** Nothing ties with a score that no item has. */
  lemma {:induction false} TiedWithNone(items: seq<string>, scores: seq<nat>, top: nat)
    requires |items| == |scores|
    requires forall j :: 0 <= j < |scores| ==> scores[j] != top
    ensures TiedWith(items, scores, top) == []
  {
    if items != [] {
      TiedWithNone(items[..|items| - 1], scores[..|scores| - 1], top);
    }
  }

  /** An item is tied exactly when some position holds it with score `top`. */
  lemma {:induction false} TiedWithMember(items: seq<string>, scores: seq<nat>, top: nat, x: string)
    requires |items| == |scores|
    ensures x in TiedWith(items, scores, top) <==> exists j :: 0 <= j < |items| && items[j] == x && scores[j] == top
  {
    if items != [] {
      var n := |items| - 1;
      var init, initScores := items[..n], scores[..n];
      var t := TiedWith(init, initScores, top);
      var last := if scores[n] == top then [items[n]] else [];
      TiedWithMember(init, initScores, top, x);
      assert TiedWith(items, scores, top) == t + last;
      if x in t {
        var j :| 0 <= j < n && init[j] == x && initScores[j] == top;
        assert items[j] == x && scores[j] == top;
      } else if x in last {
        assert items[n] == x && scores[n] == top;
      } else {
        forall j | 0 <= j < |items| && items[j] == x
          ensures scores[j] != top
        {
          if j < n {
            assert init[j] == x;
          }
        }
      }
    }
  }

  /** Every tied item is one of the items. */
  lemma TiedWithWithin(items: seq<string>, scores: seq<nat>, top: nat)
    requires |items| == |scores|
    ensures forall x :: x in TiedWith(items, scores, top) ==> x in items
  {
    forall x | x in TiedWith(items, scores, top)
      ensures x in items
    {
      TiedWithMember(items, scores, top, x);
    }
  }

  /** The ties keep the order of the items. */
  lemma {:induction false} TiedWithSubsequence(items: seq<string>, scores: seq<nat>, top: nat)
    requires |items| == |scores|
    ensures IsSubsequence(TiedWith(items, scores, top), items)
  {
    if items == [] {
      SubsequenceOfEmpty(items);
    } else {
      var n := |items| - 1;
      TiedWithSubsequence(items[..n], scores[..n], top);
      SubsequenceExtend(TiedWith(items[..n], scores[..n], top), items[..n], items[n], scores[n] == top);
      assert items[..n] + [items[n]] == items;
    }
  }

  /** What findBestWord's scan knows after the first `n` items: `bestScore`
      is their highest score (0 when none is above 0), `bestWord` the first
      item reaching it (null while none is above 0), and `bestWords` all items
      reaching it, in order. */
  ghost predicate ScannedUpTo(items: seq<string>, scores: seq<nat>, n: nat, bestScore: nat,
                              bestWord: Option<string>, bestIndex: int, bestWords: seq<string>)
  {
    && |items| == |scores| && n <= |items|
    && (forall j :: 0 <= j < n ==> scores[j] <= bestScore)
    && (bestWord.None? ==> bestScore == 0)
    && (bestWord.Some? ==>
        && 0 <= bestIndex < n && bestWord.value == items[bestIndex]
        && scores[bestIndex] == bestScore > 0
        && forall j :: 0 <= j < bestIndex ==> scores[j] < bestScore)
    && bestWords == TiedWith(items[..n], scores[..n], bestScore)
  }

  /** One more item: a higher score restarts the ties with it, an equal score
      appends it, a lower one changes nothing. */
  lemma ScanStep(items: seq<string>, scores: seq<nat>, n: nat, bestScore: nat,
                 bestWord: Option<string>, bestIndex: int, bestWords: seq<string>)
    requires ScannedUpTo(items, scores, n, bestScore, bestWord, bestIndex, bestWords) && n < |items|
    ensures scores[n] > bestScore ==> ScannedUpTo(items, scores, n + 1, scores[n], Some(items[n]), n, [items[n]])
    ensures scores[n] == bestScore ==> ScannedUpTo(items, scores, n + 1, bestScore, bestWord, bestIndex, bestWords + [items[n]])
    ensures scores[n] < bestScore ==> ScannedUpTo(items, scores, n + 1, bestScore, bestWord, bestIndex, bestWords)
  {
    if scores[n] > bestScore {
      TiedWithNone(items[..n], scores[..n], scores[n]);
      TiedWithStep(items, scores, scores[n], n);
    } else {
      TiedWithStep(items, scores, bestScore, n);
    }
  }

  /** After the last item the scan holds the maximum, its first position and
      all its ties. */
  lemma ScanComplete(items: seq<string>, scores: seq<nat>, bestScore: nat,
                     bestWord: Option<string>, bestIndex: int, bestWords: seq<string>)
    requires ScannedUpTo(items, scores, |items|, bestScore, bestWord, bestIndex, bestWords)
    ensures bestScore == MaxOf(scores)
    ensures bestWords == TiedWith(items, scores, MaxOf(scores))
    ensures bestWord.None? <==> MaxOf(scores) == 0
    ensures bestWord.Some? ==> FirstMaxAt(scores, bestIndex) && bestWord.value == items[bestIndex]
  {
    assert items[..|items|] == items;
    assert scores[..|items|] == scores;
    MaxOfUnique(scores, bestScore);
  }

  /** The words findBestWord collects in bestWords: every candidate with the top
      adjusted score, in list order. */
  function Shortlist(words: seq<string>): (r: seq<string>)
    requires |words| > 0 && SameLength(words, |words[0]|)
    ensures forall g :: g in r ==> |g| == |words[0]|
  {
    TiedWithWithin(words, MyScores(words), MaxOf(MyScores(words)));
    TiedWith(words, MyScores(words), MaxOf(MyScores(words)))
  }

  /** The shortlist is the non-empty subsequence of the candidates whose
      adjusted score is the maximum. */
  lemma ShortlistSpec(words: seq<string>, w: string)
    requires |words| > 0 && SameLength(words, |words[0]|)
    ensures w in Shortlist(words) <==> w in words && AdjustedScore(w, FrequencyTable(words)) == MaxOf(MyScores(words))
    ensures Shortlist(words) != []
    ensures IsSubsequence(Shortlist(words), words)
  {
    var scores, top := MyScores(words), MaxOf(MyScores(words));
    TiedWithMember(words, scores, top, w);
    if w in words && AdjustedScore(w, FrequencyTable(words)) == top {
      var j :| 0 <= j < |words| && words[j] == w;
      MyScoresAt(words, j);
    }
    if j :| 0 <= j < |words| && words[j] == w && scores[j] == top {
      MyScoresAt(words, j);
    }
    MaxOfIsMaximum(scores);
    var k :| 0 <= k < |words| && scores[k] == top;
    TiedWithMember(words, scores, top, words[k]);
    TiedWithSubsequence(words, scores, top);
  }

  /** The feedback matchWord gives each candidate for `guess`, in list order:
      the keys getEliminationWord groups the candidates by. */
  function FeedbacksOf(guess: string, candidates: seq<string>): (fbs: seq<WordleWord>)
    requires SameLength(candidates, |guess|)
    ensures |fbs| == |candidates|
  {
    seq(|candidates|, j requires 0 <= j < |candidates| => Feedback(guess, candidates[j]))
  }

  /** The map getEliminationWord builds for one guess. */
  function FeedbackGroups(guess: string, candidates: seq<string>): map<WordleWord, seq<string>>
    requires SameLength(candidates, |guess|)
  {
    GroupsBy(FeedbacksOf(guess, candidates), candidates)
  }

  /** A feedback is a key exactly when some candidate produces it, its list
      holds exactly the candidates that produce it, and the lists together
      hold every candidate once. */
  lemma FeedbackGroupsSpec(guess: string, candidates: seq<string>, f: WordleWord, p: string)
    requires SameLength(candidates, |guess|)
    ensures f in FeedbackGroups(guess, candidates) <==> exists q :: q in candidates && Feedback(guess, q) == f
    ensures f in FeedbackGroups(guess, candidates) ==>
      (p in FeedbackGroups(guess, candidates)[f] <==> p in candidates && Feedback(guess, p) == f)
    ensures Total(Sizes(FeedbackGroups(guess, candidates))) == |candidates|
  {
    var fbs := FeedbacksOf(guess, candidates);
    GroupsBySpec(fbs, candidates, f);
    GroupBySpec(fbs, candidates, f, p);
    GroupsByPartition(fbs, candidates);
    if f in fbs {
      var j :| 0 <= j < |fbs| && fbs[j] == f;
      assert candidates[j] in candidates;
    }
    if q :| q in candidates && Feedback(guess, q) == f {
      var j :| 0 <= j < |candidates| && candidates[j] == q;
      assert fbs[j] == f;
    }
    if p in candidates && Feedback(guess, p) == f {
      var j :| 0 <= j < |candidates| && candidates[j] == p;
      assert fbs[j] == f;
    }
  }

  /** The number of candidates left in the worst case after guessing `guess`:
      the size of its largest feedback group. */
  function WorstCase(guess: string, candidates: seq<string>): nat
    requires SameLength(candidates, |guess|)
  {
    LargestGroup(FeedbacksOf(guess, candidates))
  }

  /** The worst case never exceeds the number of candidates, is at least one
      when there is a candidate, and is below the number of candidates exactly
      when two candidates get different feedback. */
  lemma WorstCaseBounds(guess: string, candidates: seq<string>)
    requires SameLength(candidates, |guess|)
    ensures WorstCase(guess, candidates) <= |candidates|
    ensures candidates != [] ==> WorstCase(guess, candidates) >= 1
    ensures candidates != [] ==>
      (WorstCase(guess, candidates) < |candidates| <==>
        exists p :: p in candidates && Feedback(guess, p) != Feedback(guess, candidates[0]))
  {
    var fbs := FeedbacksOf(guess, candidates);
    LargestGroupBounds(fbs);
    if candidates != [] {
      if a :| 0 <= a < |fbs| && fbs[a] != fbs[0] {
        assert candidates[a] in candidates;
      }
      if p :| p in candidates && Feedback(guess, p) != Feedback(guess, candidates[0]) {
        var a :| 0 <= a < |candidates| && candidates[a] == p;
        assert fbs[a] != fbs[0];
      }
    }
  }

  /** Only the guess itself answers a guess with the all-CORRECT feedback. */
  lemma OnlyItselfGivesSelfFeedback(guess: string, p: string)
    requires |p| == |guess| && Consumed !in guess
    ensures Feedback(guess, p) == Feedback(guess, guess) ==> p == guess
  {
    if Feedback(guess, p) == Feedback(guess, guess) {
      SelfMatchAllCorrect(guess);
      AllCorrectMeansEqual(guess, p);
    }
  }

  /** Guessing one of the candidates, when another remains, always leaves
      fewer candidates in the worst case: the guess and any other candidate
      never share a group. */
  lemma CandidateGuessSplits(guess: string, candidates: seq<string>, other: string)
    requires SameLength(candidates, |guess|) && Consumed !in guess
    requires guess in candidates && other in candidates && other != guess
    ensures WorstCase(guess, candidates) < |candidates|
  {
    var fbs := FeedbacksOf(guess, candidates);
    OnlyItselfGivesSelfFeedback(guess, other);
    var ig :| 0 <= ig < |candidates| && candidates[ig] == guess;
    var io :| 0 <= io < |candidates| && candidates[io] == other;
    assert fbs[ig] != fbs[io];
    LargestGroupBounds(fbs);
    if fbs[ig] == fbs[0] {
      assert fbs[io] != fbs[0];
    } else {
      assert fbs[ig] != fbs[0];
    }
  }

  /** The worst case of each shortlisted word, in shortlist order. */
  ghost function WorstCases(bestWords: seq<string>, candidates: seq<string>): (s: seq<nat>)
    requires forall g :: g in bestWords ==> SameLength(candidates, |g|)
    ensures |s| == |bestWords|
  {
    if bestWords == [] then []
    else
      WorstCases(bestWords[..|bestWords| - 1], candidates)
        + [WorstCase(bestWords[|bestWords| - 1], candidates)]
  }

  /** Entry `j` of WorstCases is the worst case of the `j`-th shortlisted word. */
  lemma {:induction false} WorstCasesAt(bestWords: seq<string>, candidates: seq<string>, j: nat)
    requires forall g :: g in bestWords ==> SameLength(candidates, |g|)
    requires j < |bestWords|
    ensures WorstCases(bestWords, candidates)[j] == WorstCase(bestWords[j], candidates)
  {
    if j < |bestWords| - 1 {
      WorstCasesAt(bestWords[..|bestWords| - 1], candidates, j);
    }
  }

  /** getEliminationWord's answer: null when no shortlisted word has a worst
      case below the number of candidates, and otherwise the first shortlisted
      word whose worst case is smallest. */
  ghost predicate BestEliminator(bestWords: seq<string>, candidates: seq<string>, r: Option<string>)
    requires forall g :: g in bestWords ==> SameLength(candidates, |g|)
  {
    var worst := WorstCases(bestWords, candidates);
    && (r.None? <==> forall j :: 0 <= j < |bestWords| ==> worst[j] >= |candidates|)
    && (r.Some? ==> exists k :: FirstMinAt(worst, k) && worst[k] < |candidates| && r.value == bestWords[k])
  }

  /** What getEliminationWord's scan knows after the first `n` items:
      `minRemaining` is the smallest of `start` and their worst cases, and
      `best` the first item whose worst case is below `start` and reaches it
      (null while there is none). */
  ghost predicate MinScannedUpTo(items: seq<string>, worst: seq<nat>, n: nat, start: nat,
                                 minRemaining: nat, best: Option<string>, bestIndex: int)
  {
    && |items| == |worst| && n <= |items|
    && (forall j :: 0 <= j < n ==> minRemaining <= worst[j])
    && (best.None? ==> minRemaining == start)
    && (best.Some? ==>
        && 0 <= bestIndex < n && best.value == items[bestIndex]
        && minRemaining == worst[bestIndex] < start
        && forall j :: 0 <= j < bestIndex ==> minRemaining < worst[j])
  }

  /** One more item: only a strictly smaller worst case replaces the best. */
  lemma MinScanStep(items: seq<string>, worst: seq<nat>, n: nat, start: nat,
                    minRemaining: nat, best: Option<string>, bestIndex: int)
    requires MinScannedUpTo(items, worst, n, start, minRemaining, best, bestIndex) && n < |items|
    ensures worst[n] < minRemaining ==> MinScannedUpTo(items, worst, n + 1, start, worst[n], Some(items[n]), n)
    ensures worst[n] >= minRemaining ==> MinScannedUpTo(items, worst, n + 1, start, minRemaining, best, bestIndex)
  {
    if worst[n] < minRemaining {
      assert forall j :: 0 <= j < n ==> worst[n] < worst[j];
    }
  }

  /** After the last item: no best exactly when no worst case is below
      `start`, and otherwise the best is the first smallest worst case. */
  lemma MinScanComplete(items: seq<string>, worst: seq<nat>, start: nat,
                        minRemaining: nat, best: Option<string>, bestIndex: int)
    requires MinScannedUpTo(items, worst, |items|, start, minRemaining, best, bestIndex)
    ensures best.None? <==> forall j :: 0 <= j < |items| ==> worst[j] >= start
    ensures best.Some? ==> FirstMinAt(worst, bestIndex) && worst[bestIndex] < start && best.value == items[bestIndex]
  {
  }

  /** The class. `guesses` holds the candidates still possible. */
  class MyStrategy {
    const dictionary: Dictionary
    var guesses: WordleWordList

    ghost predicate Valid()
      reads this, guesses
    {
      guesses.Valid() && guesses.allWords == dictionary
    }

    constructor(dictionary: Dictionary)
      ensures this.dictionary == dictionary && fresh(guesses)
      ensures guesses.allWords == dictionary && guesses.possibleAnswers == dictionary.answerWords
      ensures dictionary.WellFormed() ==> Valid()
    {
      this.dictionary := dictionary;
      guesses := new WordleWordList(dictionary);
    }

    /** MyStrategy.giveScoreToWord: sums the table entries of the word's
        letters while collecting its distinct letters, adds their number and
        halves the total when a letter was seen twice. */
    method GiveScoreToWord(word: string, frequency: Table) returns (score: nat)
      requires |word| <= |frequency|
      ensures score == AdjustedScore(word, frequency)
    {
      score := 0;
      var hasDuplicateLetters := false;
      var uniqueLetters: set<char> := {};
      for i := 0 to |word|
        invariant score == Score(word[..i], frequency)
        invariant uniqueLetters == Letters(word[..i]) && |uniqueLetters| <= i
        invariant hasDuplicateLetters <==> |uniqueLetters| < i
      {
        var letter := word[i];
        ScorePrefixStep(word, frequency, i);
        LettersPrefixStep(word, i);
        score := score + Get(frequency[i], letter);
        if letter in uniqueLetters {
          hasDuplicateLetters := true;
        }
        uniqueLetters := uniqueLetters + {letter};
      }
      assert word[..|word|] == word;
      score := score + |uniqueLetters|;
      if hasDuplicateLetters {
        score := score / 2;
      }
    }

    /** The scoring loop of findBestWord: scores every word against the table,
        keeping the first word of the highest score above 0 and the list of
        all words with the highest score. */
    method CollectBestWords(words: seq<string>, frequency: Table) returns (bestWord: Option<string>, bestWords: seq<string>)
      requires forall w :: w in words ==> |w| == |frequency|
      ensures var scores := ScoresAgainst(words, frequency);
        && bestWords == TiedWith(words, scores, MaxOf(scores))
        && (bestWord.None? <==> MaxOf(scores) == 0)
        && (bestWord.Some? ==> exists k :: FirstMaxAt(scores, k) && bestWord.value == words[k])
    {
      ghost var scores := ScoresAgainst(words, frequency);
      var bestScore: nat := 0;
      bestWord := None;
      bestWords := [];
      ghost var bestIndex := -1;
      for n := 0 to |words|
        invariant ScannedUpTo(words, scores, n, bestScore, bestWord, bestIndex, bestWords)
      {
        var word := words[n];
        var score := GiveScoreToWord(word, frequency);
        ScoresAgainstAt(words, frequency, n);
        ScanStep(words, scores, n, bestScore, bestWord, bestIndex, bestWords);
        if score > bestScore {
          bestScore := score;
          bestWord := Some(word);
          bestIndex := n;
          bestWords := [];
          bestWords := bestWords + [word];
        } else if score == bestScore {
          bestWords := bestWords + [word];
        }
      }
      ScanComplete(words, scores, bestScore, bestWord, bestIndex, bestWords);
    }

    /** MyStrategy.findBestWord: collects the top-scoring words; with more
        candidates than letters per word it asks getEliminationWord to choose
        among them, otherwise it returns the first of them (null when no score
        is above 0). */
    method FindBestWord(possibleWords: seq<string>) returns (r: Option<string>)
      requires |possibleWords| > 0 && SameLength(possibleWords, |possibleWords[0]|)
      ensures |possibleWords| > |possibleWords[0]| ==> BestEliminator(Shortlist(possibleWords), possibleWords, r)
      ensures |possibleWords| <= |possibleWords[0]| ==>
        && (r.None? <==> MaxOf(MyScores(possibleWords)) == 0)
        && (r.Some? ==> exists k :: FirstMaxAt(MyScores(possibleWords), k) && r.value == possibleWords[k])
    {
      var frequency := GetFrequencyForEachPos(possibleWords);
      var bestWord, bestWords := CollectBestWords(possibleWords, frequency);
      assert bestWords == Shortlist(possibleWords);
      if |possibleWords| > |possibleWords[0]| {
        r := GetEliminationWord(bestWords, possibleWords);
        return;
      }
      r := bestWord;
    }

    /** MyStrategy.getEliminationWord: for each shortlisted guess, groups the
        candidates by the feedback matchWord gives them, takes the size of the
        largest group, and keeps the guess whose largest group is the first
        strictly smaller than the best so far (starting from the number of
        candidates). */
    method GetEliminationWord(bestWords: seq<string>, candidates: seq<string>) returns (r: Option<string>)
      requires forall g :: g in bestWords ==> SameLength(candidates, |g|)
      ensures BestEliminator(bestWords, candidates, r)
      ensures r.Some? ==> r.value in bestWords
    {
      var minRemainingWords: nat := |candidates|;
      var bestGuess: Option<string> := None;
      ghost var bestIndex := -1;
      ghost var worst := WorstCases(bestWords, candidates);
      for n := 0 to |bestWords|
        invariant MinScannedUpTo(bestWords, worst, n, |candidates|, minRemainingWords, bestGuess, bestIndex)
      {
        var guess := bestWords[n];
        var maxRemaining := ShortlistedWorstCase(bestWords, candidates, n);
        MinScanStep(bestWords, worst, n, |candidates|, minRemainingWords, bestGuess, bestIndex);
        if maxRemaining < minRemainingWords {
          minRemainingWords := maxRemaining;
          bestGuess := Some(guess);
          bestIndex := n;
        }
      }
      MinScanComplete(bestWords, worst, |candidates|, minRemainingWords, bestGuess, bestIndex);
      r := bestGuess;
    }

    /** The worst case of the `n`-th shortlisted guess, computed by the loop
        body below. */
    method ShortlistedWorstCase(bestWords: seq<string>, candidates: seq<string>, n: nat) returns (maxRemaining: nat)
      requires forall g :: g in bestWords ==> SameLength(candidates, |g|)
      requires n < |bestWords|
      ensures maxRemaining == WorstCases(bestWords, candidates)[n]
    {
      maxRemaining := WorstCaseOf(bestWords[n], candidates);
      WorstCasesAt(bestWords, candidates, n);
    }

    /** The body of getEliminationWord's loop for one guess: group the
        candidates by feedback, then measure the largest group. */
    method WorstCaseOf(guess: string, candidates: seq<string>) returns (maxRemaining: nat)
      requires SameLength(candidates, |guess|)
      ensures maxRemaining == WorstCase(guess, candidates)
    {
      var feedbackGroups := GroupByFeedback(guess, candidates);
      maxRemaining := LargestGroupSize(feedbackGroups);
      ghost var fbs := FeedbacksOf(guess, candidates);
      assert feedbackGroups == GroupsBy(fbs, candidates);
      if maxRemaining != 0 {
        var f :| f in feedbackGroups && |feedbackGroups[f]| == maxRemaining;
        assert f in GroupsBy(fbs, candidates) && |GroupsBy(fbs, candidates)[f]| == maxRemaining;
      }
      LargestGroupOfMap(fbs, candidates, maxRemaining);
    }

    /** The first inner loop of getEliminationWord: each candidate is matched
        against the guess and appended to the group of its feedback. */
    method GroupByFeedback(guess: string, candidates: seq<string>) returns (feedbackGroups: map<WordleWord, seq<string>>)
      requires SameLength(candidates, |guess|)
      ensures feedbackGroups == FeedbackGroups(guess, candidates)
    {
      ghost var fbs := FeedbacksOf(guess, candidates);
      feedbackGroups := map[];
      for m := 0 to |candidates|
        invariant feedbackGroups == GroupsBy(fbs[..m], candidates[..m])
      {
        var possible := candidates[m];
        var feedback := MatchWord(guess, possible);
        assert feedback.value == fbs[m];
        GroupsByStep(fbs, candidates, m);
        if feedback.value !in feedbackGroups {
          feedbackGroups := feedbackGroups[feedback.value := []];
        }
        feedbackGroups := feedbackGroups[feedback.value := feedbackGroups[feedback.value] + [possible]];
      }
      assert candidates[..|candidates|] == candidates;
      assert fbs[..|candidates|] == fbs;
    }

    /** The second inner loop of getEliminationWord: the size of the largest
        group, 0 when there is none. */
    method LargestGroupSize(feedbackGroups: map<WordleWord, seq<string>>) returns (maxRemaining: nat)
      ensures forall f :: f in feedbackGroups ==> |feedbackGroups[f]| <= maxRemaining
      ensures maxRemaining == 0 || exists f :: f in feedbackGroups && |feedbackGroups[f]| == maxRemaining
    {
      maxRemaining := 0;
      var keys := feedbackGroups.Keys;
      while keys != {}
        invariant keys <= feedbackGroups.Keys
        invariant forall f :: f in feedbackGroups && f !in keys ==> |feedbackGroups[f]| <= maxRemaining
        invariant maxRemaining == 0 || exists f :: f in feedbackGroups && f !in keys && |feedbackGroups[f]| == maxRemaining
        decreases keys
      {
        var f :| f in keys;
        var group := feedbackGroups[f];
        if |group| > maxRemaining {
          maxRemaining := |group|;
        }
        keys := keys - {f};
      }
    }

    /** MyStrategy.makeGuess: filter by the feedback when there is one, then
        return the only candidate left or findBestWord's choice. */
    method MakeGuess(feedback: Option<WordleWord>, isPossibleWord: (string, WordleWord) -> bool) returns (r: Result<string>)
      requires Valid()
      modifies guesses
      ensures Valid()
      ensures feedback.None? ==> guesses.possibleAnswers == old(guesses.possibleAnswers)
      ensures feedback.Some? ==>
        guesses.possibleAnswers == Eliminate(old(guesses.possibleAnswers), feedback.value, isPossibleWord)
      ensures r.Err? <==> guesses.possibleAnswers == []
      ensures r.Ok? ==> r.value in guesses.possibleAnswers
      ensures |guesses.possibleAnswers| == 1 ==> r == Ok(guesses.possibleAnswers[0])
      ensures 1 < |guesses.possibleAnswers| <= dictionary.wordLength ==>
        && SameLength(guesses.possibleAnswers, |guesses.possibleAnswers[0]|)
        && exists k :: FirstMaxAt(MyScores(guesses.possibleAnswers), k) && r == Ok(guesses.possibleAnswers[k])
      ensures 1 < |guesses.possibleAnswers| && dictionary.wordLength < |guesses.possibleAnswers| ==>
        && r.Ok?
        && SameLength(guesses.possibleAnswers, |guesses.possibleAnswers[0]|)
        && BestEliminator(Shortlist(guesses.possibleAnswers), guesses.possibleAnswers, Some(r.value))
    {
      if feedback.Some? {
        guesses.EliminateWords(feedback.value, isPossibleWord);
      }
      var possibleWords := guesses.PossibleAnswers();
      if |possibleWords| == 0 {
        return Err(NoCandidates);
      }
      if |possibleWords| == 1 {
        return Ok(possibleWords[0]);
      }
      var k := dictionary.wordLength;
      assert SameLength(possibleWords, k);
      var best := FindBestWord(possibleWords);
      if |possibleWords| > k {
        EliminatorExists(possibleWords, k);
      } else {
        MyScoresPositive(possibleWords, k);
        MaxOfIsMaximum(MyScores(possibleWords));
      }
      r := Ok(best.value);
    }

    /** reset: a fresh candidate list from the dictionary's answers. */
    method Reset()
      modifies this
      ensures fresh(guesses)
      ensures guesses.allWords == dictionary && guesses.possibleAnswers == dictionary.answerWords
      ensures dictionary.WellFormed() ==> Valid()
    {
      guesses := new WordleWordList(dictionary);
    }
  }

  /** With at least two candidates, a shortlisted word splits them (it is
      itself a candidate, and no other candidate shares its all-CORRECT
      group), so getEliminationWord cannot return null, and what it returns
      is a candidate. */
  lemma EliminatorExists(words: seq<string>, k: nat)
    requires WellFormedList(words, k) && k >= 1 && |words| > 1
    ensures SameLength(words, |words[0]|)
    ensures forall r :: BestEliminator(Shortlist(words), words, r) ==> r.Some? && r.value in words
  {
    assert SameLength(words, k);
    var shortlist := Shortlist(words);
    ShortlistSpec(words, words[0]);
    var g := shortlist[0];
    ShortlistSpec(words, g);
    var other := if words[0] != g then words[0] else words[1];
    LowerWordHasNoMarker(g, k);
    CandidateGuessSplits(g, words, other);
    WorstCasesAt(shortlist, words, 0);
    forall r | BestEliminator(shortlist, words, r)
      ensures r.Some? && r.value in words
    {
      EliminatorChosen(shortlist, words, r, 0);
      ShortlistSpec(words, r.value);
    }
  }

  /** When some shortlisted guess has a worst case below the number of
      candidates, getEliminationWord's answer is one of the shortlisted guesses. */
  lemma EliminatorChosen(bestWords: seq<string>, candidates: seq<string>, r: Option<string>, j: nat)
    requires forall g :: g in bestWords ==> SameLength(candidates, |g|)
    requires j < |bestWords| && WorstCases(bestWords, candidates)[j] < |candidates|
    requires BestEliminator(bestWords, candidates, r)
    ensures r.Some? && r.value in bestWords
  {
  }

  /** In a non-empty list of words of length at least 1, every adjusted score
      is positive. */
  lemma MyScoresPositive(words: seq<string>, k: nat)
    requires |words| > 0 && k >= 1 && SameLength(words, k)
    ensures forall j :: 0 <= j < |words| ==> MyScores(words)[j] >= 1
  {
    forall j | 0 <= j < |words|
      ensures MyScores(words)[j] >= 1
    {
      AdjustedScoreBounds(words, words[j]);
      MyScoresAt(words, j);
    }
  }
}
