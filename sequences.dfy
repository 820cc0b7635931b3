/** Order-preserving selection, first-occurrence search and removal, and maxima
    over finite sequences: the list operations the Java code takes from
    java.util (ArrayList.indexOf, List.remove(Object), filtering loops). */
module Sequences {

  /** No element occurs twice. */
  ghost predicate Distinct<T>(s: seq<T>)
  {
    forall i, j :: 0 <= i < j < |s| ==> s[i] != s[j]
  }

  /** `sub` can be obtained from `s` by deleting elements: a strictly increasing
      choice of positions of `s` spells `sub`. */
  ghost predicate IsSubsequence<T>(sub: seq<T>, s: seq<T>)
  {
    exists idx: seq<nat> ::
      && |idx| == |sub|
      && (forall k :: 0 <= k < |idx| ==> idx[k] < |s| && sub[k] == s[idx[k]])
      && (forall k, l :: 0 <= k < l < |idx| ==> idx[k] < idx[l])
  }

  /** The empty sequence is a subsequence of any sequence. */
  lemma SubsequenceOfEmpty<T>(s: seq<T>)
    ensures IsSubsequence([], s)
  {
    var idx: seq<nat>, sub: seq<T> := [], [];
    assert |idx| == |sub|;
  }

  /** Appending the same element to both sides, or only to the longer one,
      keeps a subsequence a subsequence. */
  lemma SubsequenceExtend<T>(sub: seq<T>, s: seq<T>, x: T, take: bool)
    requires IsSubsequence(sub, s)
    ensures IsSubsequence(sub + (if take then [x] else []), s + [x])
  {
    var idx: seq<nat> :|
      && |idx| == |sub|
      && (forall k :: 0 <= k < |idx| ==> idx[k] < |s| && sub[k] == s[idx[k]])
      && (forall k, l :: 0 <= k < l < |idx| ==> idx[k] < idx[l]);
    if take {
      var idx', sub', s' := idx + [|s|], sub + [x], s + [x];
      assert idx'[..|idx|] == idx;
      forall k | 0 <= k < |idx'|
        ensures idx'[k] < |s'| && sub'[k] == s'[idx'[k]]
      {
        if k < |idx| {
          assert idx'[k] == idx[k] && sub'[k] == sub[k] && s'[idx[k]] == s[idx[k]];
        }
      }
      forall k, l | 0 <= k < l < |idx'|
        ensures idx'[k] < idx'[l]
      {
        if l < |idx| {
          assert idx'[k] == idx[k] && idx'[l] == idx[l];
        } else {
          assert idx'[k] == idx[k] && idx'[l] == |s|;
        }
      }
      assert |idx'| == |sub'|;
    } else {
      var sub', s' := sub + [], s + [x];
      assert sub' == sub;
      forall k | 0 <= k < |idx|
        ensures idx[k] < |s'| && sub'[k] == s'[idx[k]]
      {
        assert s'[idx[k]] == s[idx[k]];
      }
      assert |idx| == |sub'|;
    }
  }

  /** The elements of `s` that satisfy `keep`, in their original order. */
  function Select<T>(s: seq<T>, keep: T -> bool): (r: seq<T>)
    ensures |r| <= |s|
    ensures forall x :: x in r ==> keep(x)
  {
    if s == [] then []
    else
      var r := Select(s[..|s| - 1], keep);
      if keep(s[|s| - 1]) then r + [s[|s| - 1]] else r
  }

  lemma SelectAppend<T>(s: seq<T>, x: T, keep: T -> bool)
    ensures Select(s + [x], keep) == Select(s, keep) + (if keep(x) then [x] else [])
  {
    assert (s + [x])[..|s|] == s;
  }

  /** Every occurrence of a kept value survives and nothing else does. */
  lemma {:induction false} SelectCount<T>(s: seq<T>, keep: T -> bool, x: T)
    ensures multiset(Select(s, keep))[x] == if keep(x) then multiset(s)[x] else 0
    ensures x in Select(s, keep) <==> x in s && keep(x)
  {
    if s != [] {
      var init, last := s[..|s| - 1], s[|s| - 1];
      assert s == init + [last];
      SelectCount(init, keep, x);
    }
  }

  /** The positions of `s` that Select keeps, in increasing order. */
  ghost function SelectedPositions<T>(s: seq<T>, keep: T -> bool): seq<nat>
  {
    if s == [] then []
    else SelectedPositions(s[..|s| - 1], keep) + (if keep(s[|s| - 1]) then [|s| - 1] else [])
  }

  lemma {:induction false} SelectedPositionsSpell<T>(s: seq<T>, keep: T -> bool)
    ensures var idx, sub := SelectedPositions(s, keep), Select(s, keep);
      && |idx| == |sub|
      && (forall k :: 0 <= k < |idx| ==> idx[k] < |s| && sub[k] == s[idx[k]])
      && (forall k, l :: 0 <= k < l < |idx| ==> idx[k] < idx[l])
  {
    if s != [] {
      var init := s[..|s| - 1];
      SelectedPositionsSpell(init, keep);
      var idx, sub := SelectedPositions(init, keep), Select(init, keep);
      assert forall k :: 0 <= k < |idx| ==> idx[k] < |init| && sub[k] == s[idx[k]];
    }
  }

  lemma SelectIsSubsequence<T>(s: seq<T>, keep: T -> bool)
    ensures IsSubsequence(Select(s, keep), s)
  {
    SelectedPositionsSpell(s, keep);
    var idx := SelectedPositions(s, keep);
    assert |idx| == |Select(s, keep)|;
  }

  /** Selecting twice with the same test changes nothing the second time. */
  lemma {:induction false} SelectIdempotent<T>(s: seq<T>, keep: T -> bool)
    ensures Select(Select(s, keep), keep) == Select(s, keep)
  {
    if s != [] {
      var init, last := s[..|s| - 1], s[|s| - 1];
      SelectIdempotent(init, keep);
      if keep(last) {
        SelectAppend(Select(init, keep), last, keep);
      }
    }
  }

  lemma SelectDistinct<T>(s: seq<T>, keep: T -> bool)
    requires Distinct(s)
    ensures Distinct(Select(s, keep))
  {
    var r := Select(s, keep);
    forall i, j | 0 <= i < j < |r|
      ensures r[i] != r[j]
    {
      SelectCount(s, keep, r[i]);
      DistinctCount(s, r[i]);
      TwoPositionsCount(r, i, j);
    }
  }

  /** A value at position i occurs once more if it reappears at j. */
  lemma TwoPositionsCount<T>(s: seq<T>, i: nat, j: nat)
    requires i < j < |s|
    ensures multiset(s)[s[i]] >= 1 + (if s[j] == s[i] then 1 else 0)
  {
    assert s == s[..j] + [s[j]] + s[j + 1..];
    assert s[i] in s[..j];
  }

  /** In a sequence without repetition every value occurs at most once. */
  lemma {:induction false} DistinctCount<T>(s: seq<T>, x: T)
    requires Distinct(s)
    ensures multiset(s)[x] <= 1
  {
    if s != [] {
      var init, last := s[..|s| - 1], s[|s| - 1];
      assert s == init + [last];
      DistinctCount(init, x);
      if last == x {
        assert x !in init;
      }
    }
  }

  /** ArrayList.indexOf: the position of the first occurrence of `x`, or -1. */
  function IndexOf<T(==)>(s: seq<T>, x: T): (k: int)
    ensures -1 <= k < |s|
    ensures k == -1 <==> x !in s
    ensures 0 <= k ==> s[k] == x && x !in s[..k]
  {
    if s == [] then -1
    else if s[0] == x then 0
    else
      var k := IndexOf(s[1..], x);
      if k == -1 then -1 else k + 1
  }

  /** List.remove(Object): delete the first occurrence of `x`, if any. */
  function RemoveFirst<T(==)>(s: seq<T>, x: T): (r: seq<T>)
    ensures x !in s ==> r == s
    ensures x in s ==> |r| == |s| - 1
    ensures multiset(r) == multiset(s) - multiset{x}
    ensures x in s ==>
      && (forall i :: 0 <= i < IndexOf(s, x) ==> r[i] == s[i])
      && (forall i :: IndexOf(s, x) <= i < |r| ==> r[i] == s[i + 1])
  {
    var k := IndexOf(s, x);
    if k < 0 then s
    else
      var r := s[..k] + s[k + 1..];
      assert s == s[..k] + [x] + s[k + 1..];
      assert forall i :: k <= i < |r| ==> r[i] == s[k + 1..][i - k];
      r
  }

  /** The largest element, or 0 for the empty sequence. */
  function MaxOf(s: seq<nat>): nat
  {
    if s == [] then 0
    else
      var m := MaxOf(s[..|s| - 1]);
      if s[|s| - 1] > m then s[|s| - 1] else m
  }

  /** MaxOf bounds every element and, on a non-empty sequence, is one of them;
      any value with those two properties is MaxOf. */
  lemma {:induction false} MaxOfIsMaximum(s: seq<nat>)
    ensures forall j :: 0 <= j < |s| ==> s[j] <= MaxOf(s)
    ensures s != [] ==> exists j :: 0 <= j < |s| && s[j] == MaxOf(s)
  {
    if s != [] {
      var init := s[..|s| - 1];
      MaxOfIsMaximum(init);
      assert forall j :: 0 <= j < |init| ==> s[j] == init[j];
      if s[|s| - 1] <= MaxOf(init) && init != [] {
        var j :| 0 <= j < |init| && init[j] == MaxOf(init);
        assert s[j] == MaxOf(s);
      } else {
        assert s[|s| - 1] == MaxOf(s);
      }
    }
  }

  lemma MaxOfUnique(s: seq<nat>, m: nat)
    requires forall j :: 0 <= j < |s| ==> s[j] <= m
    requires m == 0 || exists j :: 0 <= j < |s| && s[j] == m
    ensures m == MaxOf(s)
  {
    MaxOfIsMaximum(s);
  }

  /** Position `k` holds the maximum and no earlier position reaches it: the
      element a scan with a strict `>` comparison keeps. */
  ghost predicate FirstMaxAt(scores: seq<int>, k: int)
  {
    && 0 <= k < |scores|
    && (forall j :: 0 <= j < |scores| ==> scores[j] <= scores[k])
    && (forall j :: 0 <= j < k ==> scores[j] < scores[k])
  }

  /** Position `k` holds the minimum and no earlier position reaches it: the
      element a scan with a strict `<` comparison keeps. */
  ghost predicate FirstMinAt(values: seq<int>, k: int)
  {
    && 0 <= k < |values|
    && (forall j :: 0 <= j < |values| ==> values[k] <= values[j])
    && (forall j :: 0 <= j < k ==> values[k] < values[j])
  }
}
