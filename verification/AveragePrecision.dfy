/** The area under the precision envelope (detection_map.compute_ap). */
module AveragePrecision {
  import opened Geometry
  import opened Detections

  // ----- compute_ap: the area under the precision envelope

  function SuffixMax(s: seq<real>, i: nat): (m: real)
    requires i < |s|
    decreases |s| - i
  {
    if i == |s| - 1 then s[i] else Max(s[i], SuffixMax(s, i + 1))
  }

  /** The rectangle under the envelope between two neighbouring recalls. */
  function Step(mrec: seq<real>, mpre: seq<real>, k: nat): real
    requires |mrec| == |mpre| && 0 < k < |mrec|
  {
    (mrec[k] - mrec[k - 1]) * SuffixMax(mpre, k)
  }

  function StepSum(mrec: seq<real>, mpre: seq<real>, k: nat): real
    requires |mrec| == |mpre| && k < |mrec|
  {
    if k == 0 then 0.0 else StepSum(mrec, mpre, k - 1) + Step(mrec, mpre, k)
  }

  /** The area with every step counted, also those where recall does not change. */
  function EnvelopeArea(recall: seq<real>, precision: seq<real>): real
    requires |recall| == |precision|
  {
    StepSum([0.0] + recall + [1.0], [0.0] + precision + [0.0], |recall| + 1)
  }

  /** np.sum over the positions where recall changes. */
  function TermSum(mrec: seq<real>, mpre: seq<real>, changes: seq<nat>): real
    requires |mrec| == |mpre| > 0 && Selects(changes, |mrec| - 1)
  {
    if changes == [] then 0.0
    else
      var k := changes[|changes| - 1];
      TermSum(mrec, mpre, changes[..|changes| - 1]) + (mrec[k + 1] - mrec[k]) * mpre[k + 1]
  }

  /** Filtering one more position keeps the two sums equal: a step it drops is zero. */
  lemma FilterKeepsSum(mrec: seq<real>, raw: seq<real>, mpre: seq<real>, changes: seq<nat>, k: nat)
    requires |mrec| == |mpre| == |raw| && k + 1 < |mrec| && Selects(changes, |mrec| - 1)
    requires mpre[k + 1] == SuffixMax(raw, k + 1) && TermSum(mrec, mpre, changes) == StepSum(mrec, raw, k)
    ensures TermSum(mrec, mpre, if mrec[k + 1] != mrec[k] then changes + [k] else changes) == StepSum(mrec, raw, k + 1)
  {
    hide SuffixMax;
    assert (changes + [k])[..|changes|] == changes;
    if mrec[k + 1] == mrec[k] {
      ZeroStep(mrec[k + 1] - mrec[k], mpre[k + 1]);
    }
  }

  /** The backward loop turns every entry into the largest from there on. */
  method FoldEnvelope(mpre: array<real>)
    requires mpre.Length > 0
    modifies mpre
    ensures forall k :: 0 <= k < mpre.Length ==> mpre[k] == SuffixMax(old(mpre[..]), k)
  {
    var i := mpre.Length - 1;
    while i > 0
      invariant 0 <= i < mpre.Length
      invariant forall k :: 0 <= k < i ==> mpre[k] == old(mpre[..])[k]
      invariant forall k :: i <= k < mpre.Length ==> mpre[k] == SuffixMax(old(mpre[..]), k)
    {
      mpre[i - 1] := Max(mpre[i - 1], mpre[i]);
      i := i - 1;
    }
  }

  /** The steps the recall-change filter drops are zero, so nothing is lost. */
  method ComputeAp(recall: seq<real>, precision: seq<real>) returns (ap: real)
    requires |recall| == |precision|
    ensures ap == EnvelopeArea(recall, precision)
  {
    var mrec, raw := [0.0] + recall + [1.0], [0.0] + precision + [0.0];
    var size := |raw|;
    var cells := new real[size](k requires 0 <= k < size => raw[k]);
    assert cells[..] == raw;
    FoldEnvelope(cells);
    var mpre := cells[..];
    hide SuffixMax, TermSum, StepSum;
    var changes: seq<nat> := [];
    NoSteps(mrec, raw, mpre);
    for k := 0 to size - 1
      invariant Selects(changes, size - 1)
      invariant TermSum(mrec, mpre, changes) == StepSum(mrec, raw, k)
    {
      FilterKeepsSum(mrec, raw, mpre, changes, k);
      if mrec[k + 1] != mrec[k] {
        changes := changes + [k];
      }
    }
    ap := TermSum(mrec, mpre, changes);
  }

  lemma NoSteps(mrec: seq<real>, raw: seq<real>, mpre: seq<real>)
    requires |mrec| == |mpre| == |raw| > 0
    ensures TermSum(mrec, mpre, []) == StepSum(mrec, raw, 0)
  {
  }

  lemma ZeroStep(step: real, height: real)
    requires step == 0.0
    ensures step * height == 0.0
  {
  }
}
