/** Averages that are updated in place, one observation at a time, over the reals. */
module RunningMeans {
  import opened Options

  function Sum(s: seq<real>): real {
    if s == [] then 0.0 else Sum(s[..|s| - 1]) + s[|s| - 1]
  }

  function Mean(s: seq<real>): Option<real> {
    if s == [] then None else Some(Sum(s) / |s| as real)
  }

  /** The mean of `n` observations when the first `n - 1` have mean `avg`. */
  function Weighted(avg: real, score: real, n: nat): real
    requires n > 0
  {
    (avg * (n - 1) as real + score) / n as real
  }

  lemma WeightedOfMean(total: real, x: real, n: nat)
    requires n > 0
    ensures Weighted(total / n as real, x, n + 1) == (total + x) / (n + 1) as real
  {
    assert total / n as real * n as real == total;
  }

  lemma MeanExtends(s: seq<real>, x: real)
    ensures Mean(s + [x]) == Some(if s == [] then x else Weighted(Mean(s).value, x, |s| + 1))
  {
    assert (s + [x])[..|s|] == s;
    assert Sum(s + [x]) == Sum(s) + x;
    if s == [] {
      var n := |s + [x]| as real;
      assert n == 1.0 && x / 1.0 == x;
      assert Sum(s + [x]) / n == x;
    } else {
      WeightedOfMean(Sum(s), x, |s|);
      assert |s + [x]| == |s| + 1;
    }
  }

  /** The score of a candidate, of which the whole history is kept. */
  class Candidate {
    var avgScore: Option<real>
    var totalInterviews: nat
    var interviewHistory: seq<real>

    ghost predicate Valid()
      reads this
    {
      totalInterviews == |interviewHistory| && avgScore == Mean(interviewHistory)
    }

    constructor ()
      ensures Valid() && interviewHistory == []
    {
      avgScore, totalInterviews, interviewHistory := None, 0, [];
    }

    method UpdateScore(score: real)
      requires Valid()
      modifies this
      ensures Valid() && interviewHistory == old(interviewHistory) + [score]
    {
      MeanExtends(interviewHistory, score);
      var total := totalInterviews + 1;
      if avgScore.None? {
        avgScore := Some(score);
      } else {
        avgScore := Some(Weighted(avgScore.value, score, total));
      }
      interviewHistory := interviewHistory + [score];
      totalInterviews := total;
    }
  }

  function Successes(uses: seq<bool>): nat {
    if uses == [] then 0 else Successes(uses[..|uses| - 1]) + if uses[|uses| - 1] then 1 else 0
  }

  lemma {:induction false} SuccessesMeaning(uses: seq<bool>)
    ensures Successes(uses) == |set i | 0 <= i < |uses| && uses[i]|
  {
    var indices := set i | 0 <= i < |uses| && uses[i];
    if uses == [] {
      assert indices == {};
    } else {
      var k := |uses| - 1;
      var before := set i | 0 <= i < k && uses[..k][i];
      SuccessesMeaning(uses[..k]);
      assert indices == before + if uses[k] then {k} else {};
      assert before + {} == before;
    }
  }

  /** A template keeps only the number of uses and the rate. */
  class Template {
    var usageCount: nat
    var successRate: Option<real>
    ghost var uses: seq<bool>

    ghost predicate Valid()
      reads this
    {
      && usageCount == |uses|
      && successRate == if uses == [] then None else Some(Successes(uses) as real / |uses| as real)
    }

    constructor ()
      ensures Valid() && uses == []
    {
      usageCount, successRate, uses := 0, None, [];
    }

    method RecordUsage(success: bool)
      requires Valid()
      modifies this
      ensures Valid() && uses == old(uses) + [success]
      ensures successRate == Some(|set i | 0 <= i < |uses| && uses[i]| as real / |uses| as real)
    {
      SuccessesMeaning(uses + [success]);
      assert (uses + [success])[..|uses|] == uses;
      assert Successes(uses + [success]) == Successes(uses) + if success then 1 else 0;
      usageCount := usageCount + 1;
      var count := usageCount;
      var point := if success then 1.0 else 0.0;
      if successRate.None? {
        successRate := Some(point);
      } else {
        WeightedOfMean(Successes(uses) as real, point, |uses|);
        successRate := Some(Weighted(successRate.value, point, count));
      }
      uses := uses + [success];
    }
  }

  /** The average of a question after a series of uses, some without a score: the count goes up
      with every use, the average moves only with a score. */
  function QuestionAverage(uses: seq<Option<real>>): Option<real> {
    if uses == [] then None else
      var before := QuestionAverage(uses[..|uses| - 1]);
      match uses[|uses| - 1]
      case None => before
      case Some(score) =>
        if before.None? then Some(score)
        else Some(Weighted(before.value, score, |uses|))
  }

  class Question {
    var usageCount: nat
    var avgScore: Option<real>
    ghost var uses: seq<Option<real>>

    ghost predicate Valid()
      reads this
    {
      usageCount == |uses| && avgScore == QuestionAverage(uses)
    }

    constructor ()
      ensures Valid() && uses == []
    {
      usageCount, avgScore, uses := 0, None, [];
    }

    method RecordUsage(score: Option<real>)
      requires Valid()
      modifies this
      ensures Valid() && uses == old(uses) + [score]
    {
      assert (uses + [score])[..|uses|] == uses;
      usageCount := usageCount + 1;
      if score.Some? {
        if avgScore.None? {
          avgScore := score;
        } else {
          var count := usageCount;
          avgScore := Some(Weighted(avgScore.value, score.value, count));
        }
      }
      uses := uses + [score];
    }
  }

  /** When every use is scored, the average is the mean of the scores. */
  lemma {:induction false} AllScoredIsMean(uses: seq<Option<real>>, scores: seq<real>)
    requires |uses| == |scores| && forall i :: 0 <= i < |uses| ==> uses[i] == Some(scores[i])
    ensures QuestionAverage(uses) == Mean(scores)
  {
    if uses == [] {
    } else {
      var k := |uses| - 1;
      AllScoredIsMean(uses[..k], scores[..k]);
      assert scores == scores[..k] + [scores[k]];
      MeanExtends(scores[..k], scores[k]);
    }
  }

  lemma Positive(x: real, n: real)
    requires x > 0.0 && n > 0.0
    ensures x * n > 0.0
  {
  }

  lemma QuotientAtLeast(a: real, total: real, n: real)
    requires n > 0.0 && a * n <= total
    ensures a <= total / n
  {
    var q := total / n;
    assert q * n == total && (a - q) * n == a * n - q * n;
    if a > q {
      Positive(a - q, n);
    }
  }

  lemma WeightedAtLeast(lo: real, avg: real, x: real, m: real)
    requires lo <= avg && lo <= x && m >= 0.0
    ensures lo <= (avg * m + x) / (m + 1.0)
  {
    assert (avg - lo) * m >= 0.0;
    assert lo * (m + 1.0) == avg * m - (avg - lo) * m + lo;
    QuotientAtLeast(lo, avg * m + x, m + 1.0);
  }

  lemma Between(lo: real, avg: real, x: real, hi: real, n: nat)
    requires lo <= avg <= hi && lo <= x <= hi && n > 0
    ensures lo <= Weighted(avg, x, n) <= hi
  {
    var m := (n - 1) as real;
    WeightedAtLeast(lo, avg, x, m);
    WeightedAtLeast(-hi, -avg, -x, m);
    assert -avg * m + -x == -(avg * m + x);
    Opposite(avg * m + x, m + 1.0);
  }

  lemma Opposite(total: real, n: real)
    requires n > 0.0
    ensures -total / n == -(total / n)
  {
    assert (-total / n + total / n) * n == 0.0;
  }

  /** For any mix of scored and unscored uses the average lies between the lowest score and the highest. */
  lemma {:induction false} AverageBetweenScores(uses: seq<Option<real>>, lo: real, hi: real)
    requires forall i :: 0 <= i < |uses| && uses[i].Some? ==> lo <= uses[i].value <= hi
    ensures QuestionAverage(uses).Some? ==> lo <= QuestionAverage(uses).value <= hi
  {
    if uses == [] {
    } else {
      var k := |uses| - 1;
      var before := QuestionAverage(uses[..k]);
      AverageBetweenScores(uses[..k], lo, hi);
      assert forall i :: 0 <= i < k ==> uses[..k][i] == uses[i];
      if uses[k].Some? && before.Some? {
        Between(lo, before.value, uses[k].value, hi, k + 1);
      } else {
        assert QuestionAverage(uses) in {before, uses[k]};
      }
    }
  }

  lemma {:induction false} AverageNeedsScore(uses: seq<Option<real>>)
    ensures QuestionAverage(uses).Some? <==> exists i :: 0 <= i < |uses| && uses[i].Some?
  {
    if uses == [] {
    } else {
      var before := uses[..|uses| - 1];
      AverageNeedsScore(before);
      assert uses == before + [uses[|uses| - 1]];
    }
  }

  // ---------- When the average is the mean of the scores ----------

  /** The scores of a series of uses, in order. */
  function Scores(uses: seq<Option<real>>): seq<real> {
    if uses == [] then [] else
      Scores(uses[..|uses| - 1]) + match uses[|uses| - 1] case None => [] case Some(score) => [score]
  }

  ghost predicate SamePattern(a: seq<Option<real>>, b: seq<Option<real>>) {
    |a| == |b| && forall i :: 0 <= i < |a| ==> (a[i].Some? <==> b[i].Some?)
  }

  /** No unscored use comes before a score other than the first. */
  ghost predicate UnscoredAtTheEdges(uses: seq<Option<real>>) {
    forall i, j, k :: 0 <= i < j < |uses| && 0 <= k < j && uses[i].None? && uses[j].Some? ==> uses[k].None?
  }

  lemma {:induction false} ScoresCounted(uses: seq<Option<real>>)
    ensures |Scores(uses)| <= |uses|
    ensures |Scores(uses)| == |uses| <==> forall i :: 0 <= i < |uses| ==> uses[i].Some?
    ensures QuestionAverage(uses).None? <==> Scores(uses) == []
  {
    if uses == [] {
    } else {
      var before := uses[..|uses| - 1];
      ScoresCounted(before);
      assert uses == before + [uses[|uses| - 1]];
    }
  }

  lemma {:induction false} EdgesGiveMean(uses: seq<Option<real>>)
    requires UnscoredAtTheEdges(uses)
    ensures QuestionAverage(uses) == Mean(Scores(uses))
  {
    if uses == [] {
    } else {
      var before, last := uses[..|uses| - 1], uses[|uses| - 1];
      assert forall i :: 0 <= i < |before| ==> before[i] == uses[i];
      EdgesGiveMean(before);
      ScoresCounted(before);
      AverageNeedsScore(before);
      if last.Some? {
        MeanExtends(Scores(before), last.value);
      } else {
        assert Scores(before) + [] == Scores(before);
      }
    }
  }

  /** A series with the same pattern in which every score is 0. */
  function Zeros(uses: seq<Option<real>>): (zeros: seq<Option<real>>)
    ensures |zeros| == |uses|
    ensures forall i :: 0 <= i < |uses| ==> zeros[i] == if uses[i].Some? then Some(0.0) else None
  {
    seq(|uses|, i requires 0 <= i < |uses| => if uses[i].Some? then Some(0.0) else None)
  }

  /** A series with the same pattern in which every score is 0 but the last, which is 1. */
  function Spike(uses: seq<Option<real>>): seq<Option<real>> {
    if uses == [] then []
    else if uses[|uses| - 1].None? then Spike(uses[..|uses| - 1]) + [None]
    else Zeros(uses[..|uses| - 1]) + [Some(1.0)]
  }

  lemma {:induction false} SpikeSamePattern(uses: seq<Option<real>>)
    ensures SamePattern(Spike(uses), uses)
  {
    if uses == [] {
    } else {
      SpikeSamePattern(uses[..|uses| - 1]);
    }
  }

  lemma {:induction false} ZerosAverage(zeros: seq<Option<real>>)
    requires forall i :: 0 <= i < |zeros| && zeros[i].Some? ==> zeros[i].value == 0.0
    ensures QuestionAverage(zeros).Some? ==> QuestionAverage(zeros).value == 0.0
    ensures Sum(Scores(zeros)) == 0.0
  {
    AverageBetweenScores(zeros, 0.0, 0.0);
    if zeros == [] {
    } else {
      ZerosAverage(zeros[..|zeros| - 1]);
      SumStep(Scores(zeros[..|zeros| - 1]), 0.0);
      assert Scores(zeros[..|zeros| - 1]) + [] == Scores(zeros[..|zeros| - 1]);
    }
  }

  lemma SumStep(s: seq<real>, x: real)
    ensures Sum(s + [x]) == Sum(s) + x
  {
    assert (s + [x])[..|s|] == s;
  }

  lemma Reciprocals(m: nat, n: nat)
    requires 0 < m < n
    ensures Weighted(0.0, 1.0, n) != 1.0 / m as real
  {
    assert 0.0 * (n - 1) as real == 0.0;
    var a, b := 1.0 / m as real, 1.0 / n as real;
    assert a * m as real == 1.0 && b * n as real == 1.0;
  }

  /** A score of 1 after scores of 0, of which some use before it had none. */
  lemma SpikeAfterZeros(zeros: seq<Option<real>>)
    requires forall i :: 0 <= i < |zeros| && zeros[i].Some? ==> zeros[i].value == 0.0
    requires (exists i :: 0 <= i < |zeros| && zeros[i].None?) && (exists i :: 0 <= i < |zeros| && zeros[i].Some?)
    ensures QuestionAverage(zeros + [Some(1.0)]) != Mean(Scores(zeros + [Some(1.0)]))
  {
    var uses, scores := zeros + [Some(1.0)], Scores(zeros);
    assert uses[..|zeros|] == zeros;
    ZerosAverage(zeros);
    ScoresCounted(zeros);
    AverageNeedsScore(zeros);
    SumStep(scores, 1.0);
    Reciprocals(|scores| + 1, |uses|);
    assert |scores + [1.0]| == |scores| + 1;
  }

  lemma {:induction false} SpikeMissesMean(uses: seq<Option<real>>)
    requires !UnscoredAtTheEdges(uses)
    ensures QuestionAverage(Spike(uses)) != Mean(Scores(Spike(uses)))
  {
    var before, last := uses[..|uses| - 1], uses[|uses| - 1];
    assert forall i :: 0 <= i < |before| ==> before[i] == uses[i];
    if last.None? {
      SpikeMissesMean(before);
      assert Spike(uses)[..|Spike(before)|] == Spike(before);
      assert Scores(Spike(before)) + [] == Scores(Spike(before));
    } else {
      var i, j, k :| 0 <= i < j < |uses| && 0 <= k < j && uses[i].None? && uses[j].Some? && uses[k].Some?;
      assert Zeros(before)[i].None? && Zeros(before)[k].Some?;
      SpikeAfterZeros(Zeros(before));
    }
  }

  /** The average is the mean of the scores for every series with a given pattern of scored and
      unscored uses exactly when no unscored use in it comes before a score other than the first. */
  lemma AverageIsMeanExactly(uses: seq<Option<real>>)
    ensures UnscoredAtTheEdges(uses) <==>
            forall series :: SamePattern(series, uses) ==> QuestionAverage(series) == Mean(Scores(series))
  {
    if UnscoredAtTheEdges(uses) {
      forall series | SamePattern(series, uses)
        ensures QuestionAverage(series) == Mean(Scores(series))
      {
        assert UnscoredAtTheEdges(series);
        EdgesGiveMean(series);
      }
    } else {
      SpikeSamePattern(uses);
      SpikeMissesMean(uses);
    }
  }

  /** An instance: an unscored use between two scores weighs like one more use at the average so far,
      and the average is then the mean of the scores only if they are equal. */
  lemma UnscoredUsesWeigh(a: real, b: real)
    ensures QuestionAverage([Some(a), None, Some(b)]) == Some((2.0 * a + b) / 3.0)
    ensures QuestionAverage([Some(a), None, Some(b)]) == Mean([a, b]) <==> a == b
  {
    var uses := [Some(a), None, Some(b)];
    assert uses[..2] == [Some(a), None] && uses[..2][..1] == [Some(a)] && [Some(a)][..0] == [];
    assert QuestionAverage([Some(a)]) == Some(a);
    assert QuestionAverage(uses[..2]) == Some(a);
    assert [a, b][..1] == [a] && [a][..0] == [];
    assert Sum([a]) == a && Sum([a, b]) == a + b;
    assert |uses| == 3 && uses[2] == Some(b);
    assert QuestionAverage(uses) == Some(Weighted(a, b, 3));
    var n := |[a, b]| as real;
    assert n == 2.0;
    assert Sum([a, b]) / n == (a + b) / 2.0;
    ThirdUse(a, b);
  }

  lemma ThirdUse(a: real, b: real)
    ensures Weighted(a, b, 3) == (2.0 * a + b) / 3.0
    ensures Weighted(a, b, 3) == (a + b) / 2.0 <==> a == b
  {
    assert 2 as real == 2.0 && 3 as real == 3.0;
  }
}
