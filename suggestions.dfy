/**
  The "did you mean?" ranker of src/lib.rs.

  Every possible value is scored against the target by a similarity metric, the values whose
  score is strictly above a fixed confidence threshold are kept, the survivors are sorted by
  score in ascending order with a stable sort (so the best match comes last), and the values
  are returned. The metric itself (Jaro-Winkler, from an external crate) is not part of this
  model: it is a parameter, and the model relies on no property of it.
 */
module Suggestions {

  datatype Option<T> = None | Some(value: T)

  /** A similarity metric: target, candidate -> confidence. */
  type Similarity = (string, string) -> real

  /** Candidates must score strictly above this to be suggested. */
  const ConfidenceThreshold: real := 0.8

  /** A possible value together with its score against the target. */
  datatype Scored = Scored(confidence: real, value: string)

  // ---------------------------------------------------------------------------
  // The map / filter / collect pipeline
  // ---------------------------------------------------------------------------

  /** Every possible value paired with its score, in input order. */
  function Scores(target: string, values: seq<string>, similarity: Similarity): seq<Scored>
  {
    seq(|values|, i requires 0 <= i < |values| => Scored(similarity(target, values[i]), values[i]))
  }

  /** The scored candidates whose confidence is strictly above the threshold, in input order. */
  function Confident(candidates: seq<Scored>): (r: seq<Scored>)
    ensures forall x :: x in r ==> x in candidates && x.confidence > ConfidenceThreshold
  {
    if candidates == [] then []
    else
      var x := candidates[|candidates| - 1];
      Confident(candidates[..|candidates| - 1]) + (if x.confidence > ConfidenceThreshold then [x] else [])
  }

  /** The values of a scored sequence, dropping the scores. */
  function Values(candidates: seq<Scored>): seq<string>
  {
    seq(|candidates|, i requires 0 <= i < |candidates| => candidates[i].value)
  }

  /**
    Reference definition stated on the possible values alone: those whose score is strictly
    above the threshold, in input order, each occurrence kept.
   */
  function Passing(target: string, values: seq<string>, similarity: Similarity): seq<string>
  {
    if values == [] then []
    else
      var v := values[|values| - 1];
      Passing(target, values[..|values| - 1], similarity)
        + (if similarity(target, v) > ConfidenceThreshold then [v] else [])
  }

  /** The values of `values` that score exactly `level`, in their order. */
  function AtLevel(target: string, values: seq<string>, similarity: Similarity, level: real): seq<string>
  {
    if values == [] then []
    else
      var v := values[|values| - 1];
      AtLevel(target, values[..|values| - 1], similarity, level)
        + (if similarity(target, v) == level then [v] else [])
  }

  lemma ValuesOfAppend(a: seq<Scored>, b: seq<Scored>)
    ensures Values(a + b) == Values(a) + Values(b)
  {
  }

  /** The scored pipeline keeps exactly the values that pass the threshold, in input order. */
  lemma {:induction false} PipelineKeepsPassing(target: string, values: seq<string>, similarity: Similarity)
    ensures Values(Confident(Scores(target, values, similarity))) == Passing(target, values, similarity)
  {
    if values != [] {
      var n := |values| - 1;
      var all := Scores(target, values, similarity);
      assert all[..n] == Scores(target, values[..n], similarity);
      assert all[n] == Scored(similarity(target, values[n]), values[n]);
      PipelineKeepsPassing(target, values[..n], similarity);
      var front := Confident(all[..n]);
      var tail := if all[n].confidence > ConfidenceThreshold then [all[n]] else [];
      assert Confident(all) == front + tail;
      ValuesOfAppend(front, tail);
      assert Values(tail) == if similarity(target, values[n]) > ConfidenceThreshold then [values[n]] else [];
    }
  }

  /** Every scored candidate carries its own score. */
  ghost predicate Faithful(candidates: seq<Scored>, target: string, similarity: Similarity)
  {
    forall x :: x in candidates ==> x.confidence == similarity(target, x.value)
  }

  // ---------------------------------------------------------------------------
  // The stable sort by confidence
  // ---------------------------------------------------------------------------

  /** Confidences are non-decreasing by position. */
  ghost predicate Sorted(s: seq<Scored>)
  {
    forall i, j :: 0 <= i < j < |s| ==> s[i].confidence <= s[j].confidence
  }

  /** The elements of `s` whose confidence is exactly `level`, in their order in `s`. */
  function Level(s: seq<Scored>, level: real): seq<Scored>
  {
    if s == [] then []
    else
      var x := s[|s| - 1];
      Level(s[..|s| - 1], level) + (if x.confidence == level then [x] else [])
  }

  /** Puts `x` after every element of `s` whose confidence is not above its own. */
  function Insert(s: seq<Scored>, x: Scored): seq<Scored>
  {
    if s == [] || s[|s| - 1].confidence <= x.confidence then s + [x]
    else Insert(s[..|s| - 1], x) + [s[|s| - 1]]
  }

  /** Insertion sort by confidence, ascending. */
  function StableSort(s: seq<Scored>): seq<Scored>
  {
    if s == [] then [] else Insert(StableSort(s[..|s| - 1]), s[|s| - 1])
  }

  lemma {:induction false} InsertKeepsSorted(s: seq<Scored>, x: Scored)
    requires Sorted(s)
    ensures Sorted(Insert(s, x))
    ensures |Insert(s, x)| == |s| + 1
    ensures forall y :: y in Insert(s, x) <==> y in s || y == x
  {
    if s != [] && s[|s| - 1].confidence > x.confidence {
      var init := s[..|s| - 1];
      InsertKeepsSorted(init, x);
      var r := Insert(init, x);
      forall y | y in r ensures y.confidence <= s[|s| - 1].confidence {
        if y != x {
          var k :| 0 <= k < |init| && init[k] == y;
        }
      }
    }
  }

  lemma {:induction false} InsertIsPermutation(s: seq<Scored>, x: Scored)
    ensures multiset(Insert(s, x)) == multiset(s) + multiset{x}
    ensures multiset(Values(Insert(s, x))) == multiset(Values(s)) + multiset{x.value}
  {
    if s == [] || s[|s| - 1].confidence <= x.confidence {
      assert Values(s + [x]) == Values(s) + [x.value];
    } else {
      var init, last := s[..|s| - 1], s[|s| - 1];
      assert s == init + [last];
      InsertIsPermutation(init, x);
      var r := Insert(init, x);
      assert Values(r + [last]) == Values(r) + [last.value];
      assert Values(s) == Values(init) + [last.value];
    }
  }

  lemma {:induction false} InsertLevel(s: seq<Scored>, x: Scored, level: real)
    ensures Level(Insert(s, x), level) == Level(s, level) + (if x.confidence == level then [x] else [])
  {
    if s == [] || s[|s| - 1].confidence <= x.confidence {
      assert (s + [x])[..|s|] == s;
    } else {
      var init, last := s[..|s| - 1], s[|s| - 1];
      InsertLevel(init, x, level);
      var r := Insert(init, x);
      assert (r + [last])[..|r|] == r;
    }
  }

  /** The stable sort yields a sorted permutation of its input. */
  lemma {:induction false} StableSortIsSortedPermutation(s: seq<Scored>)
    ensures Sorted(StableSort(s))
    ensures multiset(StableSort(s)) == multiset(s)
    ensures multiset(Values(StableSort(s))) == multiset(Values(s))
  {
    if s != [] {
      var init, last := s[..|s| - 1], s[|s| - 1];
      assert s == init + [last];
      StableSortIsSortedPermutation(init);
      InsertKeepsSorted(StableSort(init), last);
      InsertIsPermutation(StableSort(init), last);
      assert Values(s) == Values(init) + [last.value];
    }
  }

  /** Stability: elements of equal confidence keep their relative input order. */
  lemma {:induction false} StableSortIsStable(s: seq<Scored>, level: real)
    ensures Level(StableSort(s), level) == Level(s, level)
  {
    if s != [] {
      var init := s[..|s| - 1];
      StableSortIsStable(init, level);
      InsertLevel(StableSort(init), s[|s| - 1], level);
    }
  }

  lemma {:induction false} LevelOfSnoc(s: seq<Scored>, x: Scored, level: real)
    ensures Level(s + [x], level) == Level(s, level) + (if x.confidence == level then [x] else [])
  {
    assert (s + [x])[..|s|] == s;
  }

  lemma {:induction false} LevelMembers(s: seq<Scored>, level: real)
    ensures forall y :: y in Level(s, level) <==> y in s && y.confidence == level
  {
    if s != [] {
      LevelMembers(s[..|s| - 1], level);
      assert s == s[..|s| - 1] + [s[|s| - 1]];
    }
  }

  /**
    Uniqueness: a sequence that is sorted and agrees with `s` on every confidence level is
    StableSort(s). So any correct stable sort (the source uses the standard library's) gives
    the same result as the insertion sort modelled here.
   */
  lemma {:induction false} StableSortIsUnique(s: seq<Scored>, t: seq<Scored>)
    requires Sorted(t)
    requires forall level :: Level(t, level) == Level(s, level)
    ensures t == StableSort(s)
    decreases |t|
  {
    var u := StableSort(s);
    StableSortIsSortedPermutation(s);
    forall level ensures Level(t, level) == Level(u, level) { StableSortIsStable(s, level); }
    SortedAgreeingLevelsEqual(t, u);
  }

  /** The last element of `u` appears in `t`, so its confidence is at most that of the last of `t`. */
  lemma LastBoundedByOther(t: seq<Scored>, u: seq<Scored>)
    requires Sorted(t) && t != [] && u != []
    requires forall level :: Level(t, level) == Level(u, level)
    ensures u[|u| - 1].confidence <= t[|t| - 1].confidence
  {
    var y := u[|u| - 1];
    LevelMembers(u, y.confidence);
    LevelMembers(t, y.confidence);
    assert y in Level(u, y.confidence);
    assert y in Level(t, y.confidence);
    var k :| 0 <= k < |t| && t[k] == y;
  }

  /** Agreeing on every level, a non-empty sequence is matched by a non-empty one. */
  lemma AgreeingNonEmpty(t: seq<Scored>, u: seq<Scored>)
    requires t != []
    requires forall level :: Level(t, level) == Level(u, level)
    ensures u != []
  {
    var y := t[|t| - 1];
    LevelMembers(t, y.confidence);
    assert y in Level(u, y.confidence);
  }

  /** The last element of `s` closes the level of its own confidence. */
  lemma LevelEndsWithLast(s: seq<Scored>)
    requires s != []
    ensures var l := Level(s, s[|s| - 1].confidence); l != [] && l[|l| - 1] == s[|s| - 1]
  {
  }

  /** Sorted and agreeing on every level: the same last element. */
  lemma AgreeingLasts(t: seq<Scored>, u: seq<Scored>)
    requires Sorted(t) && Sorted(u) && t != [] && u != []
    requires forall level :: Level(t, level) == Level(u, level)
    ensures t[|t| - 1] == u[|u| - 1]
  {
    LastBoundedByOther(t, u);
    LastBoundedByOther(u, t);
    var m := t[|t| - 1].confidence;
    assert u[|u| - 1].confidence == m;
    LevelEndsWithLast(t);
    LevelEndsWithLast(u);
    assert Level(t, m) == Level(u, m);
  }

  /** Agreeing on every level, with the same last element: the rests agree on every level. */
  lemma AgreeingRests(t: seq<Scored>, u: seq<Scored>, t': seq<Scored>, u': seq<Scored>)
    requires t != [] && u != [] && t[|t| - 1] == u[|u| - 1]
    requires t' == t[..|t| - 1] && u' == u[..|u| - 1]
    requires forall level :: Level(t, level) == Level(u, level)
    ensures forall level :: Level(t', level) == Level(u', level)
  {
    forall level ensures Level(t', level) == Level(u', level) {
      var x := t[|t| - 1];
      var tail := if x.confidence == level then [x] else [];
      var lt, lu := Level(t, level), Level(u, level);
      assert lt == Level(t', level) + tail;
      assert lu == Level(u', level) + tail;
      assert Level(t', level) == lt[..|lt| - |tail|];
    }
  }

  lemma {:induction false} SortedAgreeingLevelsEqual(t: seq<Scored>, u: seq<Scored>)
    requires Sorted(t) && Sorted(u)
    requires forall level :: Level(t, level) == Level(u, level)
    ensures t == u
    decreases |t|
  {
    if t != [] {
      AgreeingNonEmpty(t, u);
      AgreeingLasts(t, u);
      AgreeingRests(t, u, t[..|t| - 1], u[..|u| - 1]);
      SortedAgreeingLevelsEqual(t[..|t| - 1], u[..|u| - 1]);
      assert t == t[..|t| - 1] + [t[|t| - 1]];
      assert u == u[..|u| - 1] + [u[|u| - 1]];
    } else if u != [] {
      AgreeingNonEmpty(u, t);
    }
  }

  /** Where Insert puts x: after the last element, from the right, whose confidence is not above x's. */
  function InsertPos(s: seq<Scored>, x: Scored): (p: nat)
    ensures p <= |s|
    ensures forall k :: p <= k < |s| ==> s[k].confidence > x.confidence
    ensures p > 0 ==> s[p - 1].confidence <= x.confidence
  {
    if s == [] || s[|s| - 1].confidence <= x.confidence then |s| else InsertPos(s[..|s| - 1], x)
  }

  lemma {:induction false} InsertSplits(s: seq<Scored>, x: Scored)
    ensures Insert(s, x) == s[..InsertPos(s, x)] + [x] + s[InsertPos(s, x)..]
  {
    if s != [] && s[|s| - 1].confidence > x.confidence {
      var init := s[..|s| - 1];
      InsertSplits(init, x);
      var p := InsertPos(init, x);
      assert init[..p] == s[..p];
      assert init[p..] + [s[|s| - 1]] == s[p..];
    }
  }

  /** A sequence laid out as `s` with `x` placed at its insertion point is the insertion. */
  lemma ShiftedIsInsert(s: seq<Scored>, x: Scored, r: seq<Scored>)
    requires |r| == |s| + 1
    requires forall k :: 0 <= k < InsertPos(s, x) ==> r[k] == s[k]
    requires r[InsertPos(s, x)] == x
    requires forall k :: InsertPos(s, x) < k < |r| ==> r[k] == s[k - 1]
    ensures r == Insert(s, x)
  {
    var p := InsertPos(s, x);
    InsertSplits(s, x);
    assert r == s[..p] + [x] + s[p..];
  }

  /** The insertion point is the one place with no larger confidence just before it and only larger ones after. */
  lemma {:induction false} InsertPosIs(s: seq<Scored>, x: Scored, j: nat)
    requires j <= |s|
    requires forall k :: j <= k < |s| ==> s[k].confidence > x.confidence
    requires j == 0 || s[j - 1].confidence <= x.confidence
    ensures InsertPos(s, x) == j
    decreases |s|
  {
    if j < |s| {
      InsertPosIs(s[..|s| - 1], x, j);
    }
  }

  /** One insertion step: the element at index i moves left past every larger confidence. */
  method InsertionStep(a: array<Scored>, i: nat)
    requires i < a.Length
    modifies a
    ensures a[..i + 1] == Insert(old(a[..i]), old(a[i]))
    ensures a[i + 1..] == old(a[i + 1..])
  {
    ghost var s := a[..i];
    var x := a[i];
    var j := i;
    while 0 < j && a[j - 1].confidence > x.confidence
      invariant j <= i
      invariant forall k :: 0 <= k < j ==> a[k] == s[k]
      invariant forall k :: j < k <= i ==> a[k] == s[k - 1]
      invariant forall k :: j <= k < i ==> s[k].confidence > x.confidence
      invariant a[i + 1..] == old(a[i + 1..])
    {
      a[j] := a[j - 1];
      j := j - 1;
    }
    InsertPosIs(s, x, j);
    a[j] := x;
    ShiftedIsInsert(s, x, a[..i + 1]);
  }

  /** Sorting one more element inserts it into the sorted prefix. */
  lemma StableSortStep(s: seq<Scored>, i: nat)
    requires i < |s|
    ensures StableSort(s[..i + 1]) == Insert(StableSort(s[..i]), s[i])
  {
    assert s[..i + 1][..i] == s[..i];
  }

  /**
    The in-place stable sort of the survivors by confidence, ascending.
   */
  method SortByConfidence(a: array<Scored>)
    modifies a
    ensures a[..] == StableSort(old(a[..]))
  {
    ghost var s := a[..];
    var i := 0;
    while i < a.Length
      invariant 0 <= i <= a.Length
      invariant a[..i] == StableSort(s[..i])
      invariant forall k :: i <= k < a.Length ==> a[k] == s[k]
    {
      StableSortStep(s, i);
      InsertionStep(a, i);
      assert forall k :: i + 1 <= k < a.Length ==> a[k] == a[i + 1..][k - (i + 1)];
      i := i + 1;
    }
    assert a[..] == a[..a.Length];
    assert s[..a.Length] == s;
  }

  // ---------------------------------------------------------------------------
  // provide_suggestions and provide_a_suggestion
  // ---------------------------------------------------------------------------

  /** The suggestions for `target`: the passing values, stably sorted by score, best last. */
  function SuggestionsFor(target: string, values: seq<string>, similarity: Similarity): seq<string>
  {
    Values(StableSort(Confident(Scores(target, values, similarity))))
  }

  lemma SortedConfidentIsFaithful(target: string, values: seq<string>, similarity: Similarity)
    ensures Faithful(StableSort(Confident(Scores(target, values, similarity))), target, similarity)
  {
    var c := Confident(Scores(target, values, similarity));
    StableSortIsSortedPermutation(c);
    forall x | x in StableSort(c) ensures x.confidence == similarity(target, x.value) {
      assert x in multiset(StableSort(c));
    }
  }

  /** Every suggestion scores strictly above the threshold; in particular 0.8 itself is excluded. */
  lemma AboveThreshold(target: string, values: seq<string>, similarity: Similarity)
    ensures forall s :: s in SuggestionsFor(target, values, similarity) ==>
      similarity(target, s) > ConfidenceThreshold
  {
    var c := Confident(Scores(target, values, similarity));
    StableSortIsSortedPermutation(c);
    SortedConfidentIsFaithful(target, values, similarity);
    var sorted := StableSort(c);
    forall s | s in Values(sorted) ensures similarity(target, s) > ConfidenceThreshold {
      var k :| 0 <= k < |sorted| && sorted[k].value == s;
      assert sorted[k] in multiset(sorted);
    }
  }

  /**
    The suggestions are a permutation of the passing values: every occurrence is kept and
    nothing outside the input appears.
   */
  lemma IsPermutationOfPassing(target: string, values: seq<string>, similarity: Similarity)
    ensures multiset(SuggestionsFor(target, values, similarity)) == multiset(Passing(target, values, similarity))
  {
    StableSortIsSortedPermutation(Confident(Scores(target, values, similarity)));
    PipelineKeepsPassing(target, values, similarity);
  }

  /** Scores are non-decreasing by position, so the best match is last. */
  lemma IsAscending(target: string, values: seq<string>, similarity: Similarity)
    ensures var r := SuggestionsFor(target, values, similarity);
      forall i, j :: 0 <= i < j < |r| ==> similarity(target, r[i]) <= similarity(target, r[j])
  {
    var sorted := StableSort(Confident(Scores(target, values, similarity)));
    StableSortIsSortedPermutation(Confident(Scores(target, values, similarity)));
    SortedConfidentIsFaithful(target, values, similarity);
    forall i, j | 0 <= i < j < |sorted| ensures similarity(target, sorted[i].value) <= similarity(target, sorted[j].value) {
      assert sorted[i] in sorted && sorted[j] in sorted;
    }
  }

  lemma {:induction false} ValuesOfLevel(s: seq<Scored>, target: string, similarity: Similarity, level: real)
    requires Faithful(s, target, similarity)
    ensures Values(Level(s, level)) == AtLevel(target, Values(s), similarity, level)
  {
    if s != [] {
      var init, x := s[..|s| - 1], s[|s| - 1];
      assert Faithful(init, target, similarity) by {
        forall y | y in init ensures y in s { }
      }
      ValuesOfLevel(init, target, similarity, level);
      assert Values(s)[..|s| - 1] == Values(init);
      var tail := if x.confidence == level then [x] else [];
      assert Values(Level(init, level) + tail) == Values(Level(init, level)) + Values(tail);
    }
  }

  /**
    Stability: suggestions with equal scores keep their relative input order (src/lib.rs:79
    uses a stable sort).
   */
  lemma IsStable(target: string, values: seq<string>, similarity: Similarity, level: real)
    ensures AtLevel(target, SuggestionsFor(target, values, similarity), similarity, level)
         == AtLevel(target, Passing(target, values, similarity), similarity, level)
  {
    var c := Confident(Scores(target, values, similarity));
    assert Faithful(c, target, similarity);
    SortedConfidentIsFaithful(target, values, similarity);
    StableSortIsStable(c, level);
    ValuesOfLevel(StableSort(c), target, similarity, level);
    ValuesOfLevel(c, target, similarity, level);
    PipelineKeepsPassing(target, values, similarity);
  }

  lemma {:induction false} PassingEmpty(target: string, values: seq<string>, similarity: Similarity)
    ensures Passing(target, values, similarity) == [] <==>
      forall v :: v in values ==> similarity(target, v) <= ConfidenceThreshold
  {
    if values != [] {
      PassingEmpty(target, values[..|values| - 1], similarity);
      assert values == values[..|values| - 1] + [values[|values| - 1]];
    }
  }

  /**
    The suggestions are empty exactly when no possible value scores above the threshold,
    in particular when there are no possible values.
   */
  lemma EmptyIffNonePass(target: string, values: seq<string>, similarity: Similarity)
    ensures SuggestionsFor(target, values, similarity) == [] <==>
      forall v :: v in values ==> similarity(target, v) <= ConfidenceThreshold
  {
    IsPermutationOfPassing(target, values, similarity);
    PassingEmpty(target, values, similarity);
    var r := SuggestionsFor(target, values, similarity);
    assert r == [] <==> multiset(r) == multiset{};
  }

  lemma {:induction false} PassingMembers(target: string, values: seq<string>, similarity: Similarity)
    ensures forall v :: v in Passing(target, values, similarity) <==>
      v in values && similarity(target, v) > ConfidenceThreshold
  {
    if values != [] {
      PassingMembers(target, values[..|values| - 1], similarity);
      assert values == values[..|values| - 1] + [values[|values| - 1]];
    }
  }

  /**
    provide_suggestions: score, filter strictly above the threshold, stable sort ascending,
    keep the values.
   */
  method ProvideSuggestions(target: string, possibleValues: seq<string>, similarity: Similarity)
    returns (r: seq<string>)
    ensures r == SuggestionsFor(target, possibleValues, similarity)
    ensures multiset(r) == multiset(Passing(target, possibleValues, similarity))
    ensures forall i, j :: 0 <= i < j < |r| ==> similarity(target, r[i]) <= similarity(target, r[j])
  {
    var candidates := Confident(Scores(target, possibleValues, similarity));
    var a := new Scored[|candidates|](i requires 0 <= i < |candidates| => candidates[i]);
    assert a[..] == candidates;
    SortByConfidence(a);
    r := Values(a[..]);
    IsPermutationOfPassing(target, possibleValues, similarity);
    IsAscending(target, possibleValues, similarity);
  }

  /**
    provide_a_suggestion: the last of the suggestions, or None when there is none. The value
    returned is a possible value above the threshold that no possible value outscores.
   */
  method ProvideASuggestion(target: string, possibleValues: seq<string>, similarity: Similarity)
    returns (r: Option<string>)
    ensures var all := SuggestionsFor(target, possibleValues, similarity);
      r == if all == [] then None else Some(all[|all| - 1])
    ensures r == None <==> forall v :: v in possibleValues ==> similarity(target, v) <= ConfidenceThreshold
    ensures r.Some? ==> r.value in possibleValues && similarity(target, r.value) > ConfidenceThreshold
    ensures r.Some? ==> forall v :: v in possibleValues && similarity(target, v) > ConfidenceThreshold ==>
      similarity(target, v) <= similarity(target, r.value)
  {
    var all := ProvideSuggestions(target, possibleValues, similarity);
    EmptyIffNonePass(target, possibleValues, similarity);
    if all == [] {
      r := None;
    } else {
      var best := all[|all| - 1];
      r := Some(best);
      PassingMembers(target, possibleValues, similarity);
      assert best in multiset(all);
      forall v | v in possibleValues && similarity(target, v) > ConfidenceThreshold
        ensures similarity(target, v) <= similarity(target, best)
      {
        assert v in multiset(Passing(target, possibleValues, similarity));
        var k :| 0 <= k < |all| && all[k] == v;
      }
    }
  }
}
