/** What one greedy pass guarantees, stated without the visiting loop. */
module SuppressionLaws {
  import opened Geometry
  import opened Detections
  import opened Kernel
  import opened Suppression

  /** An index belongs to the set iff no member visited before it suppresses it. */
  ghost predicate GreedySet(hits: seq<Hit>, rule: Rule, keep: set<nat>) {
    && (forall i :: i in keep ==> i < |hits|)
    && forall i: nat :: i < |hits| ==> (i in keep <==> !Beaten(hits, rule, keep, i))
  }

  ghost predicate Beaten(hits: seq<Hit>, rule: Rule, keep: set<nat>, i: nat)
    requires i < |hits|
  {
    exists k :: k in keep && k < |hits| && Before(hits, rule.preferComplete, k, i) && Suppresses(rule, hits[k], hits[i])
  }

  lemma BeforeIsRank(hits: seq<Hit>, preferComplete: bool, q: nat, r: nat)
    requires q < |hits| && r < |hits|
    ensures var order := VisitOrder(hits, preferComplete); Before(hits, preferComplete, order[q], order[r]) <==> q < r
  {
    hide Precedes;
    var order := VisitOrder(hits, preferComplete);
    BeforeTotal(hits, preferComplete, order[q], order[r]);
    if r < q { assert Before(hits, preferComplete, order[r], order[q]); }
  }

  ghost function RankOf(hits: seq<Hit>, preferComplete: bool, i: nat): (r: nat)
    requires i < |hits|
    ensures r < |hits| && VisitOrder(hits, preferComplete)[r] == i
  {
    Position(VisitOrder(hits, preferComplete), i)
  }

  lemma GreedySetIsKernel(hits: seq<Hit>, rule: Rule, keep: set<nat>)
    requires forall i :: i in keep ==> i < |hits|
    ensures var order := VisitOrder(hits, rule.preferComplete);
            GreedySet(hits, rule, keep) <==>
            IsKernel(Visited(hits, rule.preferComplete), Kills(rule),
                seq(|hits|, r requires 0 <= r < |hits| => order[r] in keep))
  {
    hide Before, Suppresses, VisitOrder;
    var n, order := |hits|, VisitOrder(hits, rule.preferComplete);
    var visited, alive := Visited(hits, rule.preferComplete), seq(n, r requires 0 <= r < n => order[r] in keep);
    forall r: nat | r < n
      ensures Beaten(hits, rule, keep, order[r]) <==>
          exists q :: 0 <= q < r && alive[q] && Kills(rule)(visited[q], visited[r])
    {
      if Beaten(hits, rule, keep, order[r]) {
        var k :| k in keep && k < n && Before(hits, rule.preferComplete, k, order[r])
            && Suppresses(rule, hits[k], hits[order[r]]);
        var q := RankOf(hits, rule.preferComplete, k);
        BeforeIsRank(hits, rule.preferComplete, q, r);
        assert alive[q] && Kills(rule)(visited[q], visited[r]);
      }
      if q :| 0 <= q < r && alive[q] && Kills(rule)(visited[q], visited[r]) {
        BeforeIsRank(hits, rule.preferComplete, q, r);
        assert order[q] in keep;
      }
    }
    if IsKernel(visited, Kills(rule), alive) {
      forall i: nat | i < n ensures i in keep <==> !Beaten(hits, rule, keep, i) {
        var r := RankOf(hits, rule.preferComplete, i);
        assert alive[r] <==> i in keep;
      }
    }
  }

  /** The greedy pass keeps the one set satisfying the greedy equation: there is such a set,
      whatever the overlap measure, and no other. */
  lemma GreedySetUnique(hits: seq<Hit>, rule: Rule, keep: set<nat>)
    ensures GreedySet(hits, rule, keep) <==> keep == KeptSet(hits, rule, |hits|)
  {
    hide Precedes, Before, Suppresses, VisitOrder;
    var n, order := |hits|, VisitOrder(hits, rule.preferComplete);
    var visited, kept := Visited(hits, rule.preferComplete), KeptSet(hits, rule, n);
    if (forall i :: i in keep ==> i < n) {
      var alive := seq(n, r requires 0 <= r < n => order[r] in keep);
      GreedySetIsKernel(hits, rule, keep);
      KernelUnique(visited, Kills(rule), alive);
      forall r: nat | r < n ensures order[r] in kept <==> Survives(visited, Kills(rule), r) {
      }
      if GreedySet(hits, rule, keep) {
        forall i: nat ensures i in keep <==> i in kept {
          if i < n {
            var r := RankOf(hits, rule.preferComplete, i);
            assert alive[r] == Survives(visited, Kills(rule), r);
          }
        }
      }
    }
  }

  /** Membership in the result, as callers use it. */
  lemma KeptIff(hits: seq<Hit>, rule: Rule, i: nat)
    requires i < |hits|
    ensures i in Kept(hits, rule) <==> i in KeptSet(hits, rule, |hits|)
    ensures i in Kept(hits, rule) <==> !Beaten(hits, rule, KeptSet(hits, rule, |hits|), i)
  {
    GreedySetUnique(hits, rule, KeptSet(hits, rule, |hits|));
  }

  /** A second pass under the same rule removes nothing. */
  lemma SuppressionIdempotent(hits: seq<Hit>, rule: Rule)
    ensures var once := Suppressed(hits, rule); Suppressed(once, rule) == once
  {
    hide Suppresses, VisitOrder;
    var kept, once := Kept(hits, rule), Suppressed(hits, rule);
    var identity: seq<nat> := seq(|once|, i => i);
    var all := set i | i in identity;
    forall i: nat ensures i in all <==> i < |once| {
      if i < |once| { assert identity[i] == i; }
    }
    forall i: nat | i < |once| ensures !Beaten(once, rule, all, i) {
      KeptIff(hits, rule, kept[i]);
      forall k: nat | k < |once|
        ensures kept[k] in KeptSet(hits, rule, |hits|)
        ensures Before(once, rule.preferComplete, k, i) ==> Before(hits, rule.preferComplete, kept[k], kept[i])
      {
        assert kept[k] in kept;
      }
    }
    GreedySetUnique(once, rule, all);
    assert KeptSet(once, rule, |once|) == all;
    forall i: nat ensures i in Kept(once, rule) <==> i in identity {
      if i < |once| {
        assert i in all;
        KeptIff(once, rule, i);
      }
    }
    AscendingUnique(Kept(once, rule), identity);
  }

  /** After NMS no two boxes of one class overlap by the threshold or more. */
  lemma NmsSeparates(hits: seq<Hit>, rule: Rule, i: nat, j: nat)
    requires rule.measure.UseIou? && !rule.onlyTruncatedVictims
    requires i in Kept(hits, rule) && j in Kept(hits, rule) && i != j && hits[i].classId == hits[j].classId
    ensures Iou(hits[i].box, hits[j].box) < rule.threshold
  {
    hide Iou, Precedes, VisitOrder;
    OverlapMeasures(hits[i].box, hits[j].box);
    KeptIff(hits, rule, i);
    KeptIff(hits, rule, j);
    BeforeTotal(hits, rule.preferComplete, i, j);
  }

  /** Two lists holding the same hits, no two of equal score, keep the same hits. */
  lemma SuppressionIgnoresOrder(a: seq<Hit>, b: seq<Hit>, rule: Rule)
    requires DistinctScores(a) && DistinctScores(b) && HitSet(a) == HitSet(b)
    ensures HitSet(Suppressed(a, rule)) == HitSet(Suppressed(b, rule))
    ensures DistinctScores(Suppressed(a, rule)) && DistinctScores(Suppressed(b, rule))
  {
    hide VisitOrder;
    VisitedUnique(a, b, rule.preferComplete);
    SuppressedHits(a, rule);
    SuppressedHits(b, rule);
    PickKeepsDistinct(a, Kept(a, rule));
    PickKeepsDistinct(b, Kept(b, rule));
  }

  lemma SuppressedHits(a: seq<Hit>, rule: Rule)
    ensures var visited := Visited(a, rule.preferComplete);
            HitSet(Suppressed(a, rule)) == set r | 0 <= r < |visited| && Survives(visited, Kills(rule), r) :: visited[r]
  {
    hide VisitOrder;
    var order, visited, kept := VisitOrder(a, rule.preferComplete), Visited(a, rule.preferComplete), Kept(a, rule);
    forall h | h in HitSet(Suppressed(a, rule))
      ensures exists r :: 0 <= r < |visited| && Survives(visited, Kills(rule), r) && visited[r] == h
    {
      var t :| 0 <= t < |kept| && a[kept[t]] == h;
      assert kept[t] in kept;
      assert kept[t] in KeptSet(a, rule, |a|);
    }
    forall r | 0 <= r < |visited| && Survives(visited, Kills(rule), r)
        ensures visited[r] in HitSet(Suppressed(a, rule)) {
      assert order[r] in KeptSet(a, rule, |a|);
      assert order[r] in kept;
      var t :| 0 <= t < |kept| && kept[t] == order[r];
      assert Suppressed(a, rule)[t] == visited[r];
    }
  }

  lemma PickKeepsDistinct(a: seq<Hit>, keep: seq<nat>)
    requires DistinctScores(a) && Ascending(keep) && Selects(keep, |a|)
    ensures DistinctScores(Pick(a, keep))
  {
  }
}
