/** Average precision as a function of which ranks are true positives, in a form without an
    envelope: for every m, the best precision at any rank with at least m true positives. */
module DiscreteAp {
  import opened Geometry
  import opened AveragePrecision

  /** True positives among the first k ranks. */
  function Cum(flags: seq<bool>, k: nat): (c: nat)
    requires k <= |flags|
    ensures c <= k
  {
    if k == 0 then 0 else Cum(flags, k - 1) + (if flags[k - 1] then 1 else 0)
  }

  function Rate(flags: seq<bool>, k: nat): real
    requires 0 < k <= |flags|
  {
    Cum(flags, k) as real / k as real
  }

  /** Best precision at any of the first n ranks that has at least m true positives. */
  function Best(flags: seq<bool>, m: nat, n: nat): real
    requires n <= |flags|
  {
    if n == 0 then 0.0
    else Max(Best(flags, m, n - 1), if Cum(flags, n) >= m then Rate(flags, n) else 0.0)
  }

  function BestSum(flags: seq<bool>, t: nat): real {
    if t == 0 then 0.0 else BestSum(flags, t - 1) + Best(flags, t, |flags|)
  }

  function Ap(flags: seq<bool>, annotations: nat): real {
    if annotations == 0 then 0.0 else BestSum(flags, Cum(flags, |flags|)) / annotations as real
  }

  function Recalls(flags: seq<bool>, annotations: nat): seq<real>
    requires annotations > 0
  {
    seq(|flags|, k requires 0 <= k < |flags| => Cum(flags, k + 1) as real / annotations as real)
  }

  function Precisions(flags: seq<bool>): seq<real> {
    seq(|flags|, k requires 0 <= k < |flags| => Rate(flags, k + 1))
  }

  // ----- Small facts

  lemma QuotientMonotone(p: real, q: real, d: real)
    requires p <= q && d > 0.0
    ensures p / d <= q / d
  {
    assert q / d - p / d == (q - p) / d;
  }

  lemma RateBounds(flags: seq<bool>, k: nat)
    requires 0 < k <= |flags|
    ensures 0.0 <= Rate(flags, k) <= 1.0
  {
    QuotientMonotone(0.0, Cum(flags, k) as real, k as real);
    QuotientMonotone(Cum(flags, k) as real, k as real, k as real);
    DivisionUnique(k as real, k as real, 1.0);
  }

  lemma {:induction false} CumMonotone(flags: seq<bool>, j: nat, k: nat)
    requires j <= k <= |flags|
    ensures Cum(flags, j) <= Cum(flags, k)
  {
    if j < k {
      CumMonotone(flags, j, k - 1);
    }
  }

  /** Best is an upper bound of the rates it ranges over, and zero or one of them. */
  lemma {:induction false} BestBounds(flags: seq<bool>, m: nat, n: nat)
    requires n <= |flags|
    ensures 0.0 <= Best(flags, m, n) <= 1.0
    ensures forall k :: 0 < k <= n && Cum(flags, k) >= m ==> Rate(flags, k) <= Best(flags, m, n)
    ensures || Best(flags, m, n) == 0.0
            || exists k :: 0 < k <= n && Cum(flags, k) >= m && Rate(flags, k) == Best(flags, m, n)
  {
    if n > 0 {
      RateBounds(flags, n);
      BestBounds(flags, m, n - 1);
    }
  }

  lemma {:induction false} SuffixMaxBounds(s: seq<real>, i: nat)
    requires i < |s|
    ensures forall k :: i <= k < |s| ==> s[k] <= SuffixMax(s, i)
    ensures exists k :: i <= k < |s| && s[k] == SuffixMax(s, i)
    decreases |s| - i
  {
    if i < |s| - 1 {
      SuffixMaxBounds(s, i + 1);
      var k :| i + 1 <= k < |s| && s[k] == SuffixMax(s, i + 1);
      assert s[i] == SuffixMax(s, i) || s[k] == SuffixMax(s, i);
    } else {
      assert s[i] == SuffixMax(s, i);
    }
  }

  // ----- The envelope form and the discrete form agree

  /** At the rank of the m-th true positive the envelope is the best precision for m. */
  lemma EnvelopeIsBest(flags: seq<bool>, k: nat, m: nat)
    requires 0 < k <= |flags| && Cum(flags, k - 1) < m <= Cum(flags, k)
    ensures SuffixMax(MPre(flags), k) == Best(flags, m, |flags|)
  {
    hide Rate;
    var n, mpre := |flags|, MPre(flags);
    assert forall j :: 0 < j <= n ==> mpre[j] == Rate(flags, j);
    SuffixMaxBounds(mpre, k);
    BestBounds(flags, m, n);
    forall j | 0 < j <= n ensures Cum(flags, j) >= m <==> j >= k {
      if j >= k { CumMonotone(flags, k, j); } else { CumMonotone(flags, j, k - 1); }
    }
    var top :| k <= top < |mpre| && mpre[top] == SuffixMax(mpre, k);
    assert SuffixMax(mpre, k) <= Best(flags, m, n);
    if Best(flags, m, n) != 0.0 {
      var j :| 0 < j <= n && Cum(flags, j) >= m && Rate(flags, j) == Best(flags, m, n);
      assert mpre[j] <= SuffixMax(mpre, k);
    } else {
      assert mpre[n + 1] == 0.0;
    }
  }

  function MRec(flags: seq<bool>, annotations: nat): (r: seq<real>)
    requires annotations > 0
    ensures |r| == |flags| + 2
  {
    [0.0] + Recalls(flags, annotations) + [1.0]
  }

  function MPre(flags: seq<bool>): (p: seq<real>)
    ensures |p| == |flags| + 2
  {
    [0.0] + Precisions(flags) + [0.0]
  }

  /** The share of the area that the first t true positives contribute. */
  function Share(flags: seq<bool>, annotations: nat, t: nat): real
    requires annotations > 0
  {
    BestSum(flags, t) / annotations as real
  }

  /** One step of the area: a true positive at rank k adds its best precision, others nothing. */
  lemma StepAdds(flags: seq<bool>, annotations: nat, k: nat)
    requires annotations > 0 && 0 < k <= |flags|
    ensures Step(MRec(flags, annotations), MPre(flags), k)
        == Share(flags, annotations, Cum(flags, k)) - Share(flags, annotations, Cum(flags, k - 1))
  {
    hide Best, Rate, SuffixMax, MPre, Recalls;
    var m, mrec, mpre := Cum(flags, k), MRec(flags, annotations), MPre(flags);
    RecallAt(flags, annotations, k);
    RecallAt(flags, annotations, k - 1);
    if flags[k - 1] {
      EnvelopeIsBest(flags, k, m);
      UnitStep(m as real, annotations as real, SuffixMax(mpre, k), BestSum(flags, m - 1), mrec[k], mrec[k - 1],
               Share(flags, annotations, m), Share(flags, annotations, m - 1), Step(mrec, mpre, k));
    } else {
      ZeroStep(mrec[k] - mrec[k - 1], SuffixMax(mpre, k));
    }
  }

  lemma UnitStep(m: real, d: real, height: real, sum: real, r: real, r': real, share: real, share': real, step: real)
    requires d > 0.0 && r == m / d && r' == (m - 1.0) / d && step == (r - r') * height
    requires share == (sum + height) / d && share' == sum / d
    ensures step == share - share'
  {
    assert r - r' == 1.0 / d;
    assert share - share' == height / d;
    assert (1.0 / d) * height == height / d;
  }

  lemma {:induction false} StepsAreShares(flags: seq<bool>, annotations: nat, k: nat)
    requires annotations > 0 && k <= |flags|
    ensures StepSum(MRec(flags, annotations), MPre(flags), k) == Share(flags, annotations, Cum(flags, k))
  {
    hide Share, Step;
    if k > 0 {
      StepsAreShares(flags, annotations, k - 1);
      StepAdds(flags, annotations, k);
    } else {
      NoShare(flags, annotations);
    }
  }

  lemma NoShare(flags: seq<bool>, annotations: nat)
    requires annotations > 0
    ensures Share(flags, annotations, 0) == 0.0
  {
  }

  lemma RecallAt(flags: seq<bool>, annotations: nat, k: nat)
    requires annotations > 0 && k <= |flags|
    ensures MRec(flags, annotations)[k] == Cum(flags, k) as real / annotations as real
  {
    if k == 0 {
      assert 0.0 / annotations as real == 0.0;
    }
  }

  /** compute_ap on the counts is the sum over m of the best precision with m true positives. */
  lemma ApIsDiscreteMaximum(flags: seq<bool>, annotations: nat)
    requires annotations > 0
    ensures EnvelopeArea(Recalls(flags, annotations), Precisions(flags)) == Ap(flags, annotations)
  {
    var n, mrec, mpre := |flags|, MRec(flags, annotations), MPre(flags);
    StepsAreShares(flags, annotations, n);
    assert SuffixMax(mpre, n + 1) == 0.0;
    hide BestSum, Cum;
    ZeroStep(SuffixMax(mpre, n + 1), mrec[n + 1] - mrec[n]);
  }

  // ----- Dominance, bounds, trailing false positives

  /** More true positives at every rank never gives a smaller average precision. */
  lemma ApMonotone(low: seq<bool>, high: seq<bool>, annotations: nat)
    requires |low| == |high|
    requires forall k :: 0 <= k <= |low| ==> Cum(low, k) <= Cum(high, k)
    ensures Ap(low, annotations) <= Ap(high, annotations)
  {
    var n := |low|;
    BestSumMonotone(low, high, Cum(low, n));
    BestSumGrows(high, Cum(low, n), Cum(high, n));
    if annotations > 0 {
      QuotientMonotone(BestSum(low, Cum(low, n)), BestSum(high, Cum(high, n)), annotations as real);
    }
  }

  lemma {:induction false} BestMonotone(low: seq<bool>, high: seq<bool>, m: nat, n: nat)
    requires |low| == |high| && n <= |low|
    requires forall k :: 0 <= k <= |low| ==> Cum(low, k) <= Cum(high, k)
    ensures Best(low, m, n) <= Best(high, m, n)
  {
    if n > 0 {
      BestMonotone(low, high, m, n - 1);
      QuotientMonotone(Cum(low, n) as real, Cum(high, n) as real, n as real);
      RateBounds(high, n);
    }
  }

  lemma {:induction false} BestSumMonotone(low: seq<bool>, high: seq<bool>, t: nat)
    requires |low| == |high|
    requires forall k :: 0 <= k <= |low| ==> Cum(low, k) <= Cum(high, k)
    ensures BestSum(low, t) <= BestSum(high, t)
  {
    if t > 0 {
      BestMonotone(low, high, t, |low|);
      BestSumMonotone(low, high, t - 1);
    }
  }

  lemma {:induction false} BestSumGrows(flags: seq<bool>, s: nat, t: nat)
    requires s <= t
    ensures BestSum(flags, s) <= BestSum(flags, t) <= BestSum(flags, s) + (t - s) as real
  {
    if s < t {
      BestBounds(flags, t, |flags|);
      BestSumGrows(flags, s, t - 1);
    }
  }

  /** With no more true positives than annotations, average precision lies in [0, 1]. */
  lemma ApInUnitInterval(flags: seq<bool>, annotations: nat)
    requires Cum(flags, |flags|) <= annotations
    ensures 0.0 <= Ap(flags, annotations) <= 1.0
  {
    if annotations > 0 {
      var total := Cum(flags, |flags|);
      BestSumGrows(flags, 0, total);
      QuotientMonotone(0.0, BestSum(flags, total), annotations as real);
      QuotientMonotone(BestSum(flags, total), annotations as real, annotations as real);
      DivisionUnique(annotations as real, annotations as real, 1.0);
    }
  }

  lemma {:induction false} CumPrefix(flags: seq<bool>, more: seq<bool>, k: nat)
    requires k <= |flags|
    ensures Cum(flags + more, k) == Cum(flags, k)
  {
    if k > 0 {
      CumPrefix(flags, more, k - 1);
    }
  }

  lemma {:induction false} BestPrefix(flags: seq<bool>, more: seq<bool>, m: nat, n: nat)
    requires n <= |flags|
    ensures Best(flags + more, m, n) == Best(flags, m, n)
  {
    if n > 0 {
      CumPrefix(flags, more, n);
      BestPrefix(flags, more, m, n - 1);
    }
  }

  lemma RateFalls(c: real, n: real)
    requires 0.0 <= c <= n && n > 0.0
    ensures c / (n + 1.0) <= c / n
  {
    RatioAntitone(c, n, n + 1.0);
  }

  /** One more false positive after everything else changes no best precision that counts. */
  lemma BestIgnoresTrailing(flags: seq<bool>, m: nat)
    requires 0 < m <= Cum(flags, |flags|)
    ensures Best(flags + [false], m, |flags| + 1) == Best(flags, m, |flags|)
  {
    var n, c := |flags|, Cum(flags, |flags|);
    BestPrefix(flags, [false], m, n);
    CumPrefix(flags, [false], n);
    BestBounds(flags, m, n);
    RateFalls(c as real, n as real);
    assert Rate(flags + [false], n + 1) <= Rate(flags, n);
  }

  lemma {:induction false} BestSumIgnoresTrailing(flags: seq<bool>, t: nat)
    requires t <= Cum(flags, |flags|)
    ensures BestSum(flags + [false], t) == BestSum(flags, t)
  {
    if t > 0 {
      BestIgnoresTrailing(flags, t);
      BestSumIgnoresTrailing(flags, t - 1);
    }
  }

  /** False positives ranked below the last true positive leave average precision unchanged. */
  lemma {:induction false} TrailingFalsePositivesAreFree(flags: seq<bool>, more: nat, annotations: nat)
    ensures Ap(flags + seq(more, _ => false), annotations) == Ap(flags, annotations)
    decreases more
  {
    if more == 0 {
      assert flags + seq(0, _ => false) == flags;
    } else {
      var longer := flags + seq(more - 1, _ => false);
      TrailingFalsePositivesAreFree(flags, more - 1, annotations);
      CumPrefix(longer, [false], |longer|);
      BestSumIgnoresTrailing(longer, Cum(longer, |longer|));
      assert flags + seq(more, _ => false) == longer + [false];
    }
  }
}
