/** Fitness of an individual against the target (`score_fitness`) and the
    exact-match test that ends the run (`check_match`). */
module Scoring {
  import opened Genes

  /** Position `i` of the target counts against `value`: `value` has no byte
      there, or a different one. */
  predicate Mismatch(value: Chromosome, target: Chromosome, i: nat)
    requires i < |target|
  {
    i >= |value| || value[i] != target[i]
  }

  /** The number of mismatching positions below `k`. */
  function MismatchesBelow(value: Chromosome, target: Chromosome, k: nat): (r: nat)
    requires k <= |target|
    ensures r <= k
    ensures r == 0 <==> forall i :: 0 <= i < k ==> !Mismatch(value, target, i)
  {
    if k == 0 then 0
    else MismatchesBelow(value, target, k - 1) + (if Mismatch(value, target, k - 1) then 1 else 0)
  }

  /** The score `score_fitness` computes: mismatches over the whole target.
      Lower is better; zero is a perfect individual. */
  function Fitness(value: Chromosome, target: Chromosome): (r: nat)
    ensures r <= |target|
  {
    MismatchesBelow(value, target, |target|)
  }

  /** The set of mismatching positions below `k`, an independent description
      of what `MismatchesBelow` counts. */
  function MismatchSet(value: Chromosome, target: Chromosome, k: nat): set<nat>
    requires k <= |target|
  {
    set i: nat | i < k && Mismatch(value, target, i)
  }

  /** `score_fitness`: walks every index of the target and adds one for each
      position where `value` is missing a byte or holds a different one. */
  method ScoreFitness(value: Chromosome, target: Chromosome) returns (score: nat)
    ensures score == Fitness(value, target)
  {
    score := 0;
    var i := 0;
    while i < |target|
      invariant 0 <= i <= |target|
      invariant score == MismatchesBelow(value, target, i)
    {
      if i < |value| && value[i] == target[i] {
      } else {
        score := score + 1;
      }
      i := i + 1;
    }
  }

  /** The recursive count is the size of the set of mismatching positions. */
  lemma {:induction false} MismatchesAreCounted(value: Chromosome, target: Chromosome, k: nat)
    requires k <= |target|
    ensures MismatchesBelow(value, target, k) == |MismatchSet(value, target, k)|
  {
    if k > 0 {
      MismatchesAreCounted(value, target, k - 1);
      var below := MismatchSet(value, target, k - 1);
      assert k - 1 !in below;
      if Mismatch(value, target, k - 1) {
        assert MismatchSet(value, target, k) == below + {k - 1};
      } else {
        assert MismatchSet(value, target, k) == below;
      }
    }
  }

  /** The score is the number of target positions that `value` gets wrong. */
  lemma FitnessIsMismatchCount(value: Chromosome, target: Chromosome)
    ensures Fitness(value, target) == |set i: nat | i < |target| && Mismatch(value, target, i)|
  {
    MismatchesAreCounted(value, target, |target|);
  }

  /** Every target position beyond the end of `value` counts as a mismatch. */
  lemma {:induction false} MissingBytesCount(value: Chromosome, target: Chromosome, k: nat)
    requires k <= |target|
    ensures MismatchesBelow(value, target, k) >= k - |value|
  {
    if k > 0 {
      MissingBytesCount(value, target, k - 1);
    }
  }

  /** A short individual scores at least the number of bytes it lacks. */
  lemma ShortValuePenalised(value: Chromosome, target: Chromosome)
    ensures Fitness(value, target) >= |target| - |value|
  {
    MissingBytesCount(value, target, |target|);
  }

  /** Bytes of `value` beyond the target's length play no part in the score. */
  lemma {:induction false} TailIgnored(value: Chromosome, extra: Chromosome, target: Chromosome, k: nat)
    requires |value| >= |target|
    requires k <= |target|
    ensures MismatchesBelow(value + extra, target, k) == MismatchesBelow(value, target, k)
  {
    if k > 0 {
      TailIgnored(value, extra, target, k - 1);
      assert (value + extra)[k - 1] == value[k - 1];
    }
  }

  /** Appending bytes after the target's length leaves the score unchanged. */
  lemma FitnessIgnoresTail(value: Chromosome, extra: Chromosome, target: Chromosome)
    requires |value| >= |target|
    ensures Fitness(value + extra, target) == Fitness(value, target)
  {
    TailIgnored(value, extra, target, |target|);
  }

  /** The target scores zero against itself. */
  lemma TargetScoresZero(target: Chromosome)
    ensures Fitness(target, target) == 0
  {
  }

  /** The scores the program's own test table expects: "AAA", "ABA", "ABB" and
      "BBB" against "BBB" score 3, 2, 1 and 0 (bytes 65 and 66 are 'A' and 'B'). */
  lemma ScoreTable()
    ensures Fitness([65, 65, 65], [66, 66, 66]) == 3
    ensures Fitness([65, 66, 65], [66, 66, 66]) == 2
    ensures Fitness([65, 66, 66], [66, 66, 66]) == 1
    ensures Fitness([66, 66, 66], [66, 66, 66]) == 0
  {
    var a: Chromosome, b: Chromosome := [65, 65, 65], [66, 66, 66];
    assert MismatchesBelow(a, b, 1) == 1;
    assert MismatchesBelow(a, b, 2) == 2;
    var aba: Chromosome := [65, 66, 65];
    assert MismatchesBelow(aba, b, 1) == 1;
    assert MismatchesBelow(aba, b, 2) == 1;
    var abb: Chromosome := [65, 66, 66];
    assert MismatchesBelow(abb, b, 1) == 1;
    assert MismatchesBelow(abb, b, 2) == 1;
  }

  /** The number of equal pairs that `a.iter().zip(b)` yields: the walk stops
      at the end of the shorter sequence. */
  function EqualPairs(a: Chromosome, b: Chromosome): (r: nat)
    ensures r <= |a| && r <= |b|
    ensures r == |b| <==> |a| >= |b| && forall i :: 0 <= i < |b| ==> a[i] == b[i]
  {
    if |a| == 0 || |b| == 0 then 0
    else
      var rest := EqualPairs(a[1..], b[1..]);
      assert forall i :: 1 <= i < |b| && i < |a| ==> a[i] == a[1..][i - 1] && b[i] == b[1..][i - 1];
      (if a[0] == b[0] then 1 else 0) + rest
  }

  /** `check_match`: the target is found when every pair of the zip is equal
      and the zip is as long as `b`. */
  function CheckMatch(a: Chromosome, b: Chromosome): (r: bool)
    ensures r <==> |a| >= |b| && forall i :: 0 <= i < |b| ==> a[i] == b[i]
  {
    EqualPairs(a, b) == |b|
  }

  /** The match test and a zero score agree on every pair of sequences,
      whatever their lengths. */
  lemma MatchIffPerfectScore(a: Chromosome, b: Chromosome)
    ensures CheckMatch(a, b) <==> Fitness(a, b) == 0
  {
    if CheckMatch(a, b) {
      assert forall i :: 0 <= i < |b| ==> !Mismatch(a, b, i);
    }
    if Fitness(a, b) == 0 && |b| > 0 {
      assert forall i :: 0 <= i < |b| ==> !Mismatch(a, b, i);
      assert !Mismatch(a, b, |b| - 1);
      assert forall i :: 0 <= i < |b| ==> a[i] == b[i] by {
        forall i | 0 <= i < |b| ensures a[i] == b[i] {
          assert !Mismatch(a, b, i);
        }
      }
    }
  }
}
