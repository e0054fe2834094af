/** Greedy per-class suppression (_greedy_suppress, per_class_nms, suppress_contained). */
module Suppression {
  import opened Geometry
  import opened Detections
  import opened Kernel

  datatype Measure = UseIou | UseIos

  datatype Rule = Rule(measure: Measure, threshold: real, preferComplete: bool, onlyTruncatedVictims: bool)

  /** Overlap of a suppressor with a possible victim; IoS is the fraction of the victim covered. */
  function Overlap(measure: Measure, suppressor: Box, victim: Box): real {
    if measure.UseIou? then Iou(suppressor, victim) else Ios(suppressor, victim)
  }

  predicate Suppresses(rule: Rule, a: Hit, b: Hit) {
    && a.classId == b.classId
    && Overlap(rule.measure, a.box, b.box) >= rule.threshold
    && (rule.onlyTruncatedVictims ==> b.truncated)
  }

  function Kills(rule: Rule): (Hit, Hit) -> bool {
    (a, b) => Suppresses(rule, a, b)
  }

  /** The indices kept by the first r visits. */
  ghost function KeptSet(hits: seq<Hit>, rule: Rule, r: nat): set<nat>
    requires r <= |hits|
  {
    var order, visited := VisitOrder(hits, rule.preferComplete), Visited(hits, rule.preferComplete);
    set q | 0 <= q < r && Survives(visited, Kills(rule), q) :: order[q]
  }

  /** The kept indices in the detections' original order. */
  ghost function Kept(hits: seq<Hit>, rule: Rule): (kept: seq<nat>)
    ensures Ascending(kept) && Selects(kept, |hits|)
  {
    Sorted(KeptSet(hits, rule, |hits|), |hits|)
  }

  ghost function Suppressed(hits: seq<Hit>, rule: Rule): seq<Hit> {
    Pick(hits, Kept(hits, rule))
  }

  /** Whether one of the first r visits keeps a box that suppresses index i. */
  ghost predicate Raised(hits: seq<Hit>, rule: Rule, r: nat, i: nat)
    requires r <= |hits| && i < |hits|
  {
    exists k :: k in KeptSet(hits, rule, r) && k != i && Suppresses(rule, hits[k], hits[i])
  }

  lemma VisitDecides(hits: seq<Hit>, rule: Rule, r: nat)
    requires r < |hits|
    ensures var idx := VisitOrder(hits, rule.preferComplete)[r];
            var alive := Survives(Visited(hits, rule.preferComplete), Kills(rule), r);
            && (alive <==> !Raised(hits, rule, r, idx))
            && KeptSet(hits, rule, r + 1) == KeptSet(hits, rule, r) + (if alive then {idx} else {})
  {
    hide VisitOrder, Suppresses;
    var order, visited := VisitOrder(hits, rule.preferComplete), Visited(hits, rule.preferComplete);
    var idx := order[r];
    if q: nat :| q < r && Survives(visited, Kills(rule), q) && Kills(rule)(visited[q], visited[r]) {
      assert order[q] in KeptSet(hits, rule, r) && order[q] != idx;
    }
  }

  /** One greedy pass.  `suppressed` may be raised on a box that was already kept, which the loop
      never looks at again, so an asymmetric overlap does no harm. */
  method GreedySuppress(hits: seq<Hit>, rule: Rule) returns (kept: seq<nat>)
    ensures kept == Kept(hits, rule)
  {
    hide VisitOrder, Overlap;
    var num := |hits|;
    if num == 0 {
      return [];
    }
    var order := VisitOrder(hits, rule.preferComplete);
    var keep: set<nat> := {};
    var suppressed := new bool[num](_ => false);
    for r := 0 to num
      invariant keep == KeptSet(hits, rule, r)
      invariant forall i :: 0 <= i < num ==> (suppressed[i] <==> Raised(hits, rule, r, i))
    {
      var idx := order[r];
      VisitDecides(hits, rule, r);
      if !suppressed[idx] {
        keep := keep + {idx};
        forall i | 0 <= i < num && i != idx && Suppresses(rule, hits[idx], hits[i]) {
          suppressed[i] := true;
        }
      }
    }
    kept := Sorted(keep, num);
  }
}
