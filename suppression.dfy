/**
 * Per-class greedy non-maximum suppression: candidates are sorted by confidence,
 * highest first, and walked in that order; each candidate not yet suppressed is
 * kept and suppresses every later candidate of its own class that it overlaps by
 * more than the threshold.
 */
module Suppression {
  import opened Overlap
  import opened Decoding

  /** Confidences never increase along the sequence. */
  predicate SortedByConfidence(s: seq<Candidate>)
  {
    forall i, j :: 0 <= i < j < |s| ==> s[i].confidence >= s[j].confidence
  }

  /** Places `c` after every candidate whose confidence is at least its own, as a stable sort does. */
  function Insert(sorted: seq<Candidate>, c: Candidate): (r: seq<Candidate>)
    ensures |r| == |sorted| + 1
    ensures multiset(r) == multiset(sorted) + multiset{c}
  {
    if |sorted| == 0 || sorted[|sorted| - 1].confidence >= c.confidence then sorted + [c]
    else
      assert sorted == sorted[..|sorted| - 1] + [sorted[|sorted| - 1]];
      Insert(sorted[..|sorted| - 1], c) + [sorted[|sorted| - 1]]
  }

  /**
   * The order produced by a stable sort on descending confidence (the array sort
   * with comparator `b.confidence - a.confidence`): a permutation of the input.
   */
  function SortByConfidence(s: seq<Candidate>): (r: seq<Candidate>)
    ensures |r| == |s|
    ensures multiset(r) == multiset(s)
  {
    if |s| == 0 then []
    else
      assert s == s[..|s| - 1] + [s[|s| - 1]];
      Insert(SortByConfidence(s[..|s| - 1]), s[|s| - 1])
  }

  /** Inserting adds `c` and nothing else. */
  lemma {:induction false} InsertMembers(sorted: seq<Candidate>, c: Candidate)
    ensures forall x :: x in Insert(sorted, c) ==> x in sorted || x == c
  {
    if |sorted| > 0 && sorted[|sorted| - 1].confidence < c.confidence {
      var init := sorted[..|sorted| - 1];
      InsertMembers(init, c);
      assert sorted == init + [sorted[|sorted| - 1]];
    }
  }

  lemma {:induction false} InsertSorted(sorted: seq<Candidate>, c: Candidate)
    requires SortedByConfidence(sorted)
    ensures SortedByConfidence(Insert(sorted, c))
  {
    if |sorted| > 0 && sorted[|sorted| - 1].confidence < c.confidence {
      var init, last := sorted[..|sorted| - 1], sorted[|sorted| - 1];
      InsertSorted(init, c);
      InsertMembers(init, c);
      var front := Insert(init, c);
      forall k | 0 <= k < |front|
        ensures front[k].confidence >= last.confidence
      {
        assert front[k] in front;
        if front[k] != c {
          var m :| 0 <= m < |init| && init[m] == front[k];
          assert sorted[m] == init[m];
        }
      }
      assert Insert(sorted, c) == front + [last];
    }
  }

  /** Sorting leaves confidences in non-increasing order. */
  lemma {:induction false} SortSorted(s: seq<Candidate>)
    ensures SortedByConfidence(SortByConfidence(s))
  {
    if |s| > 0 {
      SortSorted(s[..|s| - 1]);
      InsertSorted(SortByConfidence(s[..|s| - 1]), s[|s| - 1]);
    }
  }

  /** The candidates of confidence `v`, in their order in `s`. */
  function WithConfidence(s: seq<Candidate>, v: real): (r: seq<Candidate>)
    ensures |r| <= |s|
  {
    if |s| == 0 then []
    else WithConfidence(s[..|s| - 1], v) + if s[|s| - 1].confidence == v then [s[|s| - 1]] else []
  }

  /** The filter keeps exactly the candidates of confidence `v`. */
  lemma {:induction false} WithConfidenceMembers(s: seq<Candidate>, v: real)
    ensures forall x :: x in WithConfidence(s, v) <==> x in s && x.confidence == v
  {
    if |s| > 0 {
      WithConfidenceMembers(s[..|s| - 1], v);
      assert s == s[..|s| - 1] + [s[|s| - 1]];
    }
  }

  lemma {:induction false} WithConfidenceAppend(a: seq<Candidate>, b: seq<Candidate>, v: real)
    ensures WithConfidence(a + b, v) == WithConfidence(a, v) + WithConfidence(b, v)
  {
    if |b| == 0 {
      assert a + b == a;
    } else {
      WithConfidenceAppend(a, b[..|b| - 1], v);
      assert (a + b)[..|a + b| - 1] == a + b[..|b| - 1];
    }
  }

  lemma WithConfidenceSingle(x: Candidate, v: real)
    ensures WithConfidence([x], v) == if x.confidence == v then [x] else []
  {
    assert [x][..0] == [];
  }

  /** Conditional singleton: `[c]` when `c` has confidence `v`, otherwise empty. */
  function IfConfidence(c: Candidate, v: real): (r: seq<Candidate>)
    ensures r == WithConfidence([c], v)
  {
    WithConfidenceSingle(c, v);
    if c.confidence == v then [c] else []
  }

  /** Moving a less confident `last` in front of `c` does not change the order among any one confidence. */
  lemma InsertStableStep(init: seq<Candidate>, front: seq<Candidate>, last: Candidate, c: Candidate, v: real)
    requires last.confidence < c.confidence
    requires WithConfidence(front, v) == WithConfidence(init, v) + IfConfidence(c, v)
    ensures WithConfidence(front + [last], v) == WithConfidence(init + [last], v) + IfConfidence(c, v)
  {
    WithConfidenceAppend(front, [last], v);
    WithConfidenceAppend(init, [last], v);
  }

  /** Inserting `c` places it after every candidate of its own confidence. */
  lemma {:induction false} InsertStable(sorted: seq<Candidate>, c: Candidate, v: real)
    ensures WithConfidence(Insert(sorted, c), v) == WithConfidence(sorted, v) + IfConfidence(c, v)
  {
    if |sorted| == 0 || sorted[|sorted| - 1].confidence >= c.confidence {
      WithConfidenceAppend(sorted, [c], v);
    } else {
      var init, last := sorted[..|sorted| - 1], sorted[|sorted| - 1];
      InsertStable(init, c, v);
      assert Insert(sorted, c) == Insert(init, c) + [last];
      InsertStableStep(init, Insert(init, c), last, c, v);
      assert init + [last] == sorted;
    }
  }

  /**
   * The sort is stable: for every confidence value, the candidates carrying it
   * appear in the sorted sequence in their input order.
   */
  lemma {:induction false} SortStable(s: seq<Candidate>, v: real)
    ensures WithConfidence(SortByConfidence(s), v) == WithConfidence(s, v)
  {
    if |s| > 0 {
      var init, last := s[..|s| - 1], s[|s| - 1];
      SortStable(init, v);
      InsertStable(SortByConfidence(init), last, v);
    }
  }

  /** Of two equally confident candidates, the one given first stays first. */
  lemma StableTie()
    ensures var a, b, c := Candidate(Box(0.0, 0.0, 1.0, 1.0), 0.5, 0),
                            Candidate(Box(0.0, 0.0, 1.0, 1.0), 0.9, 0),
                            Candidate(Box(2.0, 2.0, 3.0, 3.0), 0.5, 0);
      SortByConfidence([a, b, c]) == [b, a, c]
  {
    var a, b, c := Candidate(Box(0.0, 0.0, 1.0, 1.0), 0.5, 0),
                   Candidate(Box(0.0, 0.0, 1.0, 1.0), 0.9, 0),
                   Candidate(Box(2.0, 2.0, 3.0, 3.0), 0.5, 0);
    assert [a, b, c][..2] == [a, b];
    SortPairSwaps(a, b);
  }

  /** Sorting an already sorted sequence changes nothing: ties keep their order. */
  lemma {:induction false} SortOfSorted(s: seq<Candidate>)
    requires SortedByConfidence(s)
    ensures SortByConfidence(s) == s
  {
    if |s| > 0 {
      SortOfSorted(s[..|s| - 1]);
      assert s[..|s| - 1] + [s[|s| - 1]] == s;
    }
  }

  /** `keeper` suppresses `other`: same class and overlap above the threshold. */
  predicate Suppresses(keeper: Candidate, other: Candidate, threshold: real)
  {
    keeper.classId == other.classId && IoUExceeds(keeper.box, other.box, threshold)
  }

  /** Candidate `j` of the sorted sequence survives: no earlier survivor suppresses it. */
  predicate Kept(s: seq<Candidate>, threshold: real, j: nat)
    requires j < |s|
    decreases j
  {
    forall i :: 0 <= i < j ==> Kept(s, threshold, i) ==> !Suppresses(s[i], s[j], threshold)
  }

  /** Some survivor before position `bound` and before `j` suppresses candidate `j`. */
  ghost predicate SuppressedBefore(s: seq<Candidate>, threshold: real, bound: nat, j: nat)
    requires j < |s|
  {
    exists k :: 0 <= k < bound && k < j && Kept(s, threshold, k) && Suppresses(s[k], s[j], threshold)
  }

  /** The positions among the first `k` whose candidates survive, in increasing order. */
  function KeptIndices(s: seq<Candidate>, threshold: real, k: nat): seq<nat>
    requires k <= |s|
  {
    if k == 0 then []
    else KeptIndices(s, threshold, k - 1) + if Kept(s, threshold, k - 1) then [k - 1] else []
  }

  /** The survivors among the first `k` candidates, in order. */
  function Survivors(s: seq<Candidate>, threshold: real, k: nat): (r: seq<Candidate>)
    requires k <= |s|
    ensures |r| <= k
  {
    if k == 0 then []
    else Survivors(s, threshold, k - 1) + if Kept(s, threshold, k - 1) then [s[k - 1]] else []
  }

  /**
   * The survivors are the subsequence of `s` at the kept positions: those positions
   * increase, every one of them is kept, and every kept position is among them.
   */
  lemma {:induction false} SurvivorsSubsequence(s: seq<Candidate>, threshold: real, k: nat)
    requires k <= |s|
    ensures var idx, r := KeptIndices(s, threshold, k), Survivors(s, threshold, k);
      |r| == |idx|
      && (forall m :: 0 <= m < |idx| ==> idx[m] < k && Kept(s, threshold, idx[m]) && r[m] == s[idx[m]])
      && (forall m, n :: 0 <= m < n < |idx| ==> idx[m] < idx[n])
      && (forall j :: 0 <= j < k && Kept(s, threshold, j) ==> j in idx)
  {
    if k > 0 {
      SurvivorsSubsequence(s, threshold, k - 1);
    }
  }

  /** The result of suppression on an unsorted candidate list. */
  function Nms(candidates: seq<Candidate>, threshold: real): seq<Candidate>
  {
    Survivors(SortByConfidence(candidates), threshold, |candidates|)
  }

  /** No survivor suppresses a later survivor: same-class survivors overlap by at most the threshold. */
  lemma NmsPairwise(candidates: seq<Candidate>, threshold: real)
    ensures var out := Nms(candidates, threshold);
      forall i, j :: 0 <= i < j < |out| ==> !Suppresses(out[i], out[j], threshold)
  {
    var s := SortByConfidence(candidates);
    SurvivorsSubsequence(s, threshold, |s|);
  }

  /**
   * Every candidate that does not survive is suppressed by an earlier survivor of
   * its own class, which appears in the output.
   */
  lemma NmsDroppedHasWitness(candidates: seq<Candidate>, threshold: real, j: nat)
    requires j < |candidates|
    ensures var s := SortByConfidence(candidates);
      !Kept(s, threshold, j) ==>
        exists i :: 0 <= i < j && Kept(s, threshold, i) && s[i] in Nms(candidates, threshold)
          && s[i].classId == s[j].classId && IoUExceeds(s[i].box, s[j].box, threshold)
  {
    var s := SortByConfidence(candidates);
    if !Kept(s, threshold, j) {
      var i :| 0 <= i < j && Kept(s, threshold, i) && Suppresses(s[i], s[j], threshold);
      SurvivorsSubsequence(s, threshold, |s|);
      var idx := KeptIndices(s, threshold, |s|);
      var m :| 0 <= m < |idx| && idx[m] == i;
      assert Nms(candidates, threshold)[m] == s[i];
    }
  }

  /** Candidates of different classes never suppress each other, however much they overlap. */
  lemma CrossClassNeverSuppresses(a: Candidate, b: Candidate, threshold: real)
    requires a.classId != b.classId
    ensures !Suppresses(a, b, threshold) && !Suppresses(b, a, threshold)
  {
  }

  /** The output keeps the descending confidence order of the sorted input. */
  lemma NmsSorted(candidates: seq<Candidate>, threshold: real)
    ensures SortedByConfidence(Nms(candidates, threshold))
  {
    var s := SortByConfidence(candidates);
    SortSorted(candidates);
    SurvivorsSubsequence(s, threshold, |s|);
  }

  /** The most confident candidate (the first after sorting) always survives and leads the output. */
  lemma NmsKeepsBest(candidates: seq<Candidate>, threshold: real)
    requires |candidates| > 0
    ensures var out := Nms(candidates, threshold);
      |out| > 0 && out[0] == SortByConfidence(candidates)[0]
      && forall c :: c in candidates ==> c.confidence <= out[0].confidence
  {
    var s := SortByConfidence(candidates);
    SortSorted(candidates);
    SurvivorsSubsequence(s, threshold, |s|);
    var idx := KeptIndices(s, threshold, |s|);
    assert Kept(s, threshold, 0);
    assert 0 in idx;
    forall c | c in candidates
      ensures c.confidence <= s[0].confidence
    {
      assert c in multiset(s);
      var k :| 0 <= k < |s| && s[k] == c;
    }
  }

  lemma {:induction false} SurvivorsSubMultiset(s: seq<Candidate>, threshold: real, k: nat)
    requires k <= |s|
    ensures multiset(Survivors(s, threshold, k)) <= multiset(s[..k])
  {
    if k > 0 {
      SurvivorsSubMultiset(s, threshold, k - 1);
      assert s[..k] == s[..k - 1] + [s[k - 1]];
    }
  }

  /** Suppression only drops candidates: none is added, duplicated or altered. */
  lemma NmsSubMultiset(candidates: seq<Candidate>, threshold: real)
    ensures |Nms(candidates, threshold)| <= |candidates|
    ensures multiset(Nms(candidates, threshold)) <= multiset(candidates)
    ensures forall c :: c in Nms(candidates, threshold) ==> c in candidates
  {
    var s := SortByConfidence(candidates);
    SurvivorsSubMultiset(s, threshold, |s|);
    assert s[..|s|] == s;
    forall c | c in Nms(candidates, threshold)
      ensures c in candidates
    {
      assert c in multiset(Nms(candidates, threshold));
    }
  }

  /** In a sequence where nothing suppresses anything later, every candidate survives. */
  lemma {:induction false} SurvivorsOfQuiet(t: seq<Candidate>, threshold: real, k: nat)
    requires k <= |t|
    requires forall i, j :: 0 <= i < j < |t| ==> !Suppresses(t[i], t[j], threshold)
    ensures Survivors(t, threshold, k) == t[..k]
  {
    if k > 0 {
      SurvivorsOfQuiet(t, threshold, k - 1);
      assert Kept(t, threshold, k - 1);
      assert t[..k] == t[..k - 1] + [t[k - 1]];
    }
  }

  /** Suppressing an already suppressed list returns it unchanged. */
  lemma NmsIdempotent(candidates: seq<Candidate>, threshold: real)
    ensures Nms(Nms(candidates, threshold), threshold) == Nms(candidates, threshold)
  {
    var out := Nms(candidates, threshold);
    NmsSorted(candidates, threshold);
    SortOfSorted(out);
    NmsPairwise(candidates, threshold);
    SurvivorsOfQuiet(out, threshold, |out|);
    assert out[..|out|] == out;
  }

  /** Sorting two candidates puts the more confident one first. */
  lemma SortPairSwaps(weak: Candidate, strong: Candidate)
    requires weak.confidence < strong.confidence
    ensures SortByConfidence([weak, strong]) == [strong, weak]
  {
    assert [weak, strong][..1] == [weak];
    assert [weak][..0] == [];
    assert SortByConfidence([weak]) == [weak];
  }

  /** Of two candidates where the more confident suppresses the other, only the more confident survives. */
  lemma PairSuppressed(weak: Candidate, strong: Candidate, threshold: real)
    requires weak.confidence < strong.confidence
    requires Suppresses(strong, weak, threshold)
    ensures Nms([weak, strong], threshold) == [strong]
  {
    SortPairSwaps(weak, strong);
    var s := [strong, weak];
    assert Kept(s, threshold, 0);
    assert !Kept(s, threshold, 1);
    assert Survivors(s, threshold, 1) == [strong];
  }

  /**
   * Two same-class candidates, 100 x 100 boxes offset by 10 with confidences 0.9
   * and 0.8, overlap by about 0.68: only the more confident one survives, whatever
   * the input order.
   */
  lemma SameClassOverlapSuppressed()
    ensures var strong := Candidate(Box(0.0, 0.0, 100.0, 100.0), 0.9, 0);
      var weak := Candidate(Box(10.0, 10.0, 110.0, 110.0), 0.8, 0);
      Nms([weak, strong], 0.45) == [strong] && Nms([strong, weak], 0.45) == [strong]
  {
    var strong := Candidate(Box(0.0, 0.0, 100.0, 100.0), 0.9, 0);
    var weak := Candidate(Box(10.0, 10.0, 110.0, 110.0), 0.8, 0);
    OffsetSquaresOverlap();
    PairSuppressed(weak, strong, 0.45);
    SortOfSorted([strong, weak]);
    var s := [strong, weak];
    assert Kept(s, 0.45, 0);
    assert !Kept(s, 0.45, 1);
    assert Survivors(s, 0.45, 1) == [strong];
  }

  /** Two candidates of different classes with the same box both survive. */
  lemma CrossClassBothSurvive()
    ensures var a := Candidate(Box(0.0, 0.0, 100.0, 100.0), 0.9, 0);
      var b := Candidate(Box(0.0, 0.0, 100.0, 100.0), 0.8, 1);
      Nms([a, b], 0.45) == [a, b]
  {
    var a := Candidate(Box(0.0, 0.0, 100.0, 100.0), 0.9, 0);
    var b := Candidate(Box(0.0, 0.0, 100.0, 100.0), 0.8, 1);
    SortOfSorted([a, b]);
    SurvivorsOfQuiet([a, b], 0.45, 2);
    assert [a, b][..2] == [a, b];
  }

  /** A candidate survives exactly when no earlier survivor suppresses it. */
  lemma KeptIffNotSuppressed(s: seq<Candidate>, threshold: real, j: nat)
    requires j < |s|
    ensures Kept(s, threshold, j) <==> !SuppressedBefore(s, threshold, j, j)
  {
  }

  /** Moving the bound past position `i` adds `i`'s suppressions if `i` survives. */
  lemma SuppressedBeforeStep(s: seq<Candidate>, threshold: real, i: nat, j: nat)
    requires i < |s| && j < |s|
    ensures SuppressedBefore(s, threshold, i + 1, j) <==>
      SuppressedBefore(s, threshold, i, j)
      || (i < j && Kept(s, threshold, i) && Suppresses(s[i], s[j], threshold))
  {
  }

  /** The later candidates that candidate `i` marks when it is selected and the scan has reached `j`. */
  ghost function Marked(s: seq<Candidate>, threshold: real, i: nat, j: nat): set<int>
    requires i < |s| && j <= |s|
  {
    set m | i < m < j && Suppresses(s[i], s[m], threshold)
  }

  /** The set of marked positions after the first `i` steps of the greedy walk. */
  ghost function Used(s: seq<Candidate>, threshold: real, i: nat): set<int>
    requires i <= |s|
  {
    if i == 0 then {}
    else
      var u := Used(s, threshold, i - 1);
      if i - 1 in u then u else u + Marked(s, threshold, i - 1, |s|)
  }

  /** After `i` steps a position is marked exactly when a survivor before `i` suppresses it. */
  lemma {:induction false} UsedIffSuppressed(s: seq<Candidate>, threshold: real, i: nat)
    requires i <= |s|
    ensures forall m :: m in Used(s, threshold, i) ==> 0 <= m < |s|
    ensures forall m :: 0 <= m < |s| ==> (m in Used(s, threshold, i) <==> SuppressedBefore(s, threshold, i, m))
  {
    if i > 0 {
      UsedIffSuppressed(s, threshold, i - 1);
      KeptIffNotSuppressed(s, threshold, i - 1);
      forall m | 0 <= m < |s|
        ensures m in Used(s, threshold, i) <==> SuppressedBefore(s, threshold, i, m)
      {
        SuppressedBeforeStep(s, threshold, i - 1, m);
      }
    }
  }

  /** Candidate `i` is skipped by the walk exactly when it does not survive. */
  lemma UsedIffNotKept(s: seq<Candidate>, threshold: real, i: nat)
    requires i < |s|
    ensures i in Used(s, threshold, i) <==> !Kept(s, threshold, i)
  {
    UsedIffSuppressed(s, threshold, i);
    KeptIffNotSuppressed(s, threshold, i);
  }

  /** The array sort with comparator `b.confidence - a.confidence`: stable, highest confidence first. */
  method SortInPlace(detections: array<Candidate>)
    modifies detections
    ensures detections[..] == SortByConfidence(old(detections[..]))
  {
    var sorted := SortByConfidence(detections[..]);
    forall k | 0 <= k < detections.Length {
      detections[k] := sorted[k];
    }
  }

  /**
   * The inner walk for a selected candidate `i`: every later position not yet in
   * `used` whose candidate has `i`'s class and overlaps it by more than the
   * threshold is added to `used`.
   */
  method MarkOverlapping(detections: array<Candidate>, i: nat, used: set<int>, iouThreshold: real)
    returns (marked: set<int>)
    requires i < detections.Length
    ensures marked == used + Marked(detections[..], iouThreshold, i, detections.Length)
  {
    ghost var s := detections[..];
    marked := used;
    var j := i + 1;
    while j < detections.Length
      invariant i < j <= detections.Length
      invariant marked == used + Marked(s, iouThreshold, i, j)
    {
      assert Marked(s, iouThreshold, i, j + 1) == Marked(s, iouThreshold, i, j)
        + if Suppresses(s[i], s[j], iouThreshold) then {j} else {};
      if j in marked {
        j := j + 1;
        continue;
      }
      if detections[i].classId == detections[j].classId {
        if IoUExceeds(detections[i].box, detections[j].box, iouThreshold) {
          marked := marked + {j};
        }
      }
      j := j + 1;
    }
  }

  /** One step of the walk: a surviving candidate is appended and marks its overlaps; any other changes nothing. */
  lemma WalkStep(s: seq<Candidate>, threshold: real, i: nat)
    requires i < |s|
    ensures i in Used(s, threshold, i) <==> !Kept(s, threshold, i)
    ensures Kept(s, threshold, i) ==>
      Survivors(s, threshold, i + 1) == Survivors(s, threshold, i) + [s[i]]
      && Used(s, threshold, i + 1) == Used(s, threshold, i) + Marked(s, threshold, i, |s|)
    ensures !Kept(s, threshold, i) ==>
      Survivors(s, threshold, i + 1) == Survivors(s, threshold, i)
      && Used(s, threshold, i + 1) == Used(s, threshold, i)
  {
    UsedIffNotKept(s, threshold, i);
  }

  /**
   * Sorts the candidate array in place by descending confidence, then walks it:
   * each candidate not yet marked as used is selected and marks every later,
   * unmarked candidate of its class that it overlaps by more than the threshold.
   */
  method NmsInPlace(detections: array<Candidate>, iouThreshold: real) returns (selected: seq<Candidate>)
    modifies detections
    ensures detections[..] == SortByConfidence(old(detections[..]))
    ensures selected == Survivors(detections[..], iouThreshold, detections.Length)
  {
    SortInPlace(detections);
    ghost var sorted := detections[..];
    var n := detections.Length;
    selected := [];
    var used: set<int> := {};
    var i := 0;
    while i < n
      invariant 0 <= i <= n
      invariant selected == Survivors(sorted, iouThreshold, i)
      invariant used == Used(sorted, iouThreshold, i)
      invariant detections[..] == sorted
    {
      WalkStep(sorted, iouThreshold, i);
      if i !in used {
        selected := selected + [detections[i]];
        used := MarkOverlapping(detections, i, used, iouThreshold);
      }
      i := i + 1;
    }
  }
}
