/** Per-tile decode from the activated scores onward (decode_tile): masking, the candidate filter,
    and the per-class suppression that runs class by class on one shared score array. */
module Decode {
  import opened Geometry
  import opened Detections
  import opened Numeric
  import opened Kernel
  import opened Merge
  import opened MergeTheorems

  /** One anchor of one grid cell, with its box, objectness and class scores. */
  datatype Cell = Cell(box: Box, objectness: real, classScores: seq<real>)

  /** A cell that passed the class-score filter; `classId` is the argmax of its masked scores. */
  datatype Candidate = Candidate(box: Box, objectness: real, classScores: seq<real>, classId: nat)

  /** What sigmoid and softmax guarantee: class scores share out at most the objectness. */
  ghost predicate Activated(cells: seq<Cell>, numClasses: nat) {
    forall k :: 0 <= k < |cells| ==>
      && |cells[k].classScores| == numClasses
      && (forall c :: 0 <= c < numClasses ==> cells[k].classScores[c] >= 0.0)
      && Sum(cells[k].classScores) <= cells[k].objectness
  }

  function Masked(scores: seq<real>, threshold: real): (masked: seq<real>)
    ensures |masked| == |scores|
  {
    seq(|scores|, c requires 0 <= c < |scores| => if scores[c] > threshold then scores[c] else 0.0)
  }

  /** Whether the masked class scores have a positive sum. */
  predicate Passes(cell: Cell, objThreshold: real) {
    var masked := Masked(cell.classScores, objThreshold);
    masked != [] && Sum(masked) > 0.0
  }

  /** The cells that pass, in grid order. */
  function PassingCells(cells: seq<Cell>, objThreshold: real): (keep: seq<nat>)
    ensures Ascending(keep) && Selects(keep, |cells|)
    ensures forall i :: i in keep <==> 0 <= i < |cells| && Passes(cells[i], objThreshold)
  {
    Sorted(set i | 0 <= i < |cells| && Passes(cells[i], objThreshold), |cells|)
  }

  function FromCell(cell: Cell, objThreshold: real): Candidate
    requires Passes(cell, objThreshold)
  {
    var masked := Masked(cell.classScores, objThreshold);
    Candidate(cell.box, cell.objectness, masked, ArgMax(masked))
  }

  function Candidates(cells: seq<Cell>, objThreshold: real): (cands: seq<Candidate>)
    ensures |cands| == |PassingCells(cells, objThreshold)|
  {
    var keep := PassingCells(cells, objThreshold);
    seq(|keep|, r requires 0 <= r < |keep| => assert keep[r] in keep; FromCell(cells[keep[r]], objThreshold))
  }

  ghost predicate ValidCandidates(cands: seq<Candidate>, numClasses: nat) {
    forall i :: 0 <= i < |cands| ==>
      && |cands[i].classScores| == numClasses && cands[i].classId < numClasses
      && cands[i].objectness > 0.0 && cands[i].classScores[cands[i].classId] > 0.0
  }

  /** np.argsort of one class column, reversed: non-increasing, ties in any order. */
  ghost predicate IsClassOrder(order: seq<nat>, cands: seq<Candidate>, c: nat) {
    && IsPermutation(order, |cands|)
    && (forall i :: 0 <= i < |cands| ==> c < |cands[i].classScores|)
    && forall q, r :: 0 <= q < r < |order| ==> cands[order[q]].classScores[c] >= cands[order[r]].classScores[c]
  }

  predicate Rivals(cands: seq<Candidate>, threshold: real, c: nat, i: nat, j: nat)
    requires i < |cands| && j < |cands|
  {
    Iou(cands[i].box, cands[j].box) >= threshold && cands[i].classId == c && cands[j].classId == c
  }

  ghost function ClassKills(cands: seq<Candidate>, threshold: real, c: nat): (nat, nat) -> bool {
    (i: nat, j: nat) => i < |cands| && j < |cands| && Rivals(cands, threshold, c, i, j)
  }

  /** Survival in an independent greedy pass over the order of the candidate's own class. */
  ghost predicate Alive(cands: seq<Candidate>, threshold: real, orders: seq<seq<nat>>, i: nat)
    requires i < |cands| && cands[i].classId < |orders| && IsPermutation(orders[cands[i].classId], |cands|)
  {
    var c := cands[i].classId;
    Survives(orders[c], ClassKills(cands, threshold, c), Position(orders[c], i))
  }

  ghost predicate ValidOrders(orders: seq<seq<nat>>, cands: seq<Candidate>, numClasses: nat) {
    |orders| == numClasses && forall c :: 0 <= c < numClasses ==> IsClassOrder(orders[c], cands, c)
  }

  /** Whether one of the first r ranks holds a surviving candidate that beats rank p. */
  ghost predicate Beaten(order: seq<nat>, kills: (nat, nat) -> bool, r: nat, p: nat)
    requires r <= |order| && p < |order|
  {
    exists q :: 0 <= q < r && Survives(order, kills, q) && kills(order[q], order[p])
  }

  lemma BeatenStep(order: seq<nat>, kills: (nat, nat) -> bool, r: nat, p: nat)
    requires r < |order| && p < |order|
    ensures Beaten(order, kills, r + 1, p) <==>
        Beaten(order, kills, r, p) || (Survives(order, kills, r) && kills(order[r], order[p]))
    ensures Survives(order, kills, p) <==> !Beaten(order, kills, p, p)
  {
  }

  /** The inner loop: zero every later box of the class that overlaps box order[rank] too much. */
  method ZeroVictims(scores: array<real>, cands: seq<Candidate>, threshold: real, order: seq<nat>, c: nat, rank: nat)
    requires scores.Length == |cands| && IsPermutation(order, |cands|) && rank < |order|
    modifies scores
    ensures forall r :: 0 <= r < |order| ==>
      scores[order[r]] == (if rank < r && Rivals(cands, threshold, c, order[rank], order[r]) then 0.0
          else old(scores[order[r]]))
  {
    hide Rivals;
    var i := order[rank];
    for p := rank + 1 to |order|
      invariant forall r :: 0 <= r < |order| ==>
        scores[order[r]] == (if rank < r < p && Rivals(cands, threshold, c, i, order[r]) then 0.0
            else old(scores[order[r]]))
    {
      var j := order[p];
      assert forall r :: 0 <= r < |order| && r != p ==> order[r] != j;
      if scores[j] == 0.0 {
        continue;
      }
      if Rivals(cands, threshold, c, i, j) {
        scores[j] := 0.0;
      }
    }
  }

  /** The score of rank p while the pass over class c is at rank r. */
  ghost function ScoreAt(cands: seq<Candidate>, threshold: real, order: seq<nat>, c: nat, r: nat, p: nat,
      before: real): real
    requires IsPermutation(order, |cands|) && r <= |order| && p < |order|
  {
    if cands[order[p]].classId == c
        && Beaten(order, ClassKills(cands, threshold, c), if r <= p then r else p, p) then 0.0 else before
  }

  /** One visit keeps the record: at rank r, box order[r] beats the later boxes it overlaps iff it survives. */
  lemma VisitStep(cands: seq<Candidate>, threshold: real, order: seq<nat>, c: nat, r: nat, p: nat, before: real)
    requires IsPermutation(order, |cands|) && r < |order| && p < |order|
    ensures var kills := ClassKills(cands, threshold, c);
            ScoreAt(cands, threshold, order, c, r + 1, p, before)
            == (if r < p && Survives(order, kills, r) && Rivals(cands, threshold, c, order[r], order[p]) then 0.0
                else ScoreAt(cands, threshold, order, c, r, p, before))
  {
    hide Iou;
    BeatenStep(order, ClassKills(cands, threshold, c), r, p);
  }

  /** The pass over one class, in place on the shared scores. */
  method ClassPass(scores: array<real>, cands: seq<Candidate>, threshold: real, order: seq<nat>, c: nat)
    requires scores.Length == |cands| && IsClassOrder(order, cands, c)
    requires forall i :: 0 <= i < |cands| && cands[i].classId == c ==> scores[i] > 0.0 && cands[i].classScores[c] > 0.0
    modifies scores
    ensures forall p :: 0 <= p < |order| ==>
      scores[order[p]] == (if cands[order[p]].classId == c
          && !Survives(order, ClassKills(cands, threshold, c), p) then 0.0 else old(scores[order[p]]))
  {
    hide Rivals, ScoreAt;
    ghost var kills := ClassKills(cands, threshold, c);
    PassStarts(cands, threshold, order, c, old(scores[..]));
    for r := 0 to |order|
      invariant forall p :: 0 <= p < |order| ==>
          scores[order[p]] == ScoreAt(cands, threshold, order, c, r, p, old(scores[order[p]]))
    {
      var i := order[r];
      forall p | 0 <= p < |order|
        ensures ScoreAt(cands, threshold, order, c, r + 1, p, old(scores[order[p]]))
                == (if r < p && Survives(order, kills, r) && Rivals(cands, threshold, c, i, order[p]) then 0.0
                    else ScoreAt(cands, threshold, order, c, r, p, old(scores[order[p]])))
      {
        VisitStep(cands, threshold, order, c, r, p, old(scores[order[p]]));
      }
      VisitSkips(cands, threshold, order, c, r, old(scores[order[r]]));
      if scores[i] == 0.0 || cands[i].classScores[c] == 0.0 {
        continue;
      }
      ZeroVictims(scores, cands, threshold, order, c, r);
    }
    forall p | 0 <= p < |order|
      ensures scores[order[p]]
          == (if cands[order[p]].classId == c && !Survives(order, kills, p) then 0.0 else old(scores[order[p]]))
    {
      PassEnds(cands, threshold, order, c, p, old(scores[order[p]]));
    }
  }

  lemma PassStarts(cands: seq<Candidate>, threshold: real, order: seq<nat>, c: nat, before: seq<real>)
    requires IsPermutation(order, |cands|) && |before| == |cands|
    ensures forall p :: 0 <= p < |order| ==>
        ScoreAt(cands, threshold, order, c, 0, p, before[order[p]]) == before[order[p]]
  {
  }

  /** A box whose own score is zero, or which belongs to another class, beats nobody. */
  lemma VisitSkips(cands: seq<Candidate>, threshold: real, order: seq<nat>, c: nat, r: nat, before: real)
    requires IsPermutation(order, |cands|) && r < |order|
    requires cands[order[r]].classId == c ==> before > 0.0
    ensures cands[order[r]].classId == c ==>
              (ScoreAt(cands, threshold, order, c, r, r, before) == 0.0 <==>
                  !Survives(order, ClassKills(cands, threshold, c), r))
    ensures cands[order[r]].classId != c ==> forall p :: 0 <= p < |order| ==>
        !Rivals(cands, threshold, c, order[r], order[p])
  {
    hide Iou;
    BeatenStep(order, ClassKills(cands, threshold, c), r, r);
  }

  lemma PassEnds(cands: seq<Candidate>, threshold: real, order: seq<nat>, c: nat, p: nat, before: real)
    requires IsPermutation(order, |cands|) && p < |order|
    ensures ScoreAt(cands, threshold, order, c, |order|, p, before)
            == (if cands[order[p]].classId == c && !Survives(order, ClassKills(cands, threshold, c), p) then 0.0
                else before)
  {
    BeatenStep(order, ClassKills(cands, threshold, c), p, p);
  }

  lemma AliveIs(cands: seq<Candidate>, threshold: real, orders: seq<seq<nat>>, i: nat)
    requires i < |cands| && cands[i].classId < |orders| && IsPermutation(orders[cands[i].classId], |cands|)
    ensures var c := cands[i].classId;
            Alive(cands, threshold, orders, i) <==>
                Survives(orders[c], ClassKills(cands, threshold, c), Position(orders[c], i))
  {
  }

  /** The scores independent per-class passes leave. */
  ghost function FinalScores(cands: seq<Candidate>, numClasses: nat, threshold: real,
      orders: seq<seq<nat>>): (final: seq<real>)
    requires ValidCandidates(cands, numClasses) && ValidOrders(orders, cands, numClasses)
    ensures |final| == |cands|
  {
    seq(|cands|, i requires 0 <= i < |cands| => if Alive(cands, threshold, orders, i) then cands[i].objectness else 0.0)
  }

  /** Class by class on one array: the result is what an independent pass per class would give. */
  method SuppressClasses(cands: seq<Candidate>, numClasses: nat, threshold: real, orders: seq<seq<nat>>)
    returns (final: seq<real>)
    requires ValidCandidates(cands, numClasses) && ValidOrders(orders, cands, numClasses)
    ensures final == FinalScores(cands, numClasses, threshold, orders)
  {
    hide ClassKills, Alive;
    var scores := new real[|cands|](i requires 0 <= i < |cands| => cands[i].objectness);
    for c := 0 to numClasses
      invariant forall i :: 0 <= i < |cands| ==>
        scores[i] == (if cands[i].classId < c && !Alive(cands, threshold, orders, i) then 0.0 else cands[i].objectness)
    {
      label Pass:
      ClassPass(scores, cands, threshold, orders[c], c);
      forall i | 0 <= i < |cands|
        ensures scores[i] == (if cands[i].classId == c && !Alive(cands, threshold, orders, i) then 0.0
            else old@Pass(scores[i]))
      {
        var p := Position(orders[c], i);
        assert orders[c][p] == i;
        AliveIs(cands, threshold, orders, i);
      }
    }
    final := scores[..];
    assert forall i :: 0 <= i < |cands| ==> cands[i].classId < numClasses;
  }

  // ----- What the suppression guarantees

  /** Two surviving candidates of one class overlap by less than the threshold. */
  lemma AliveSeparated(cands: seq<Candidate>, numClasses: nat, threshold: real, orders: seq<seq<nat>>, i: nat, j: nat)
    requires ValidCandidates(cands, numClasses) && ValidOrders(orders, cands, numClasses) && i < |cands| && j < |cands|
    requires i != j && cands[i].classId == cands[j].classId && Alive(cands, threshold, orders, i)
        && Alive(cands, threshold, orders, j)
    ensures Iou(cands[i].box, cands[j].box) < threshold
  {
    hide Iou;
    var c := cands[i].classId;
    OverlapMeasures(cands[i].box, cands[j].box);
    var p, q := Position(orders[c], i), Position(orders[c], j);
    assert ClassKills(cands, threshold, c)(i, j) <==> Rivals(cands, threshold, c, i, j);
    assert ClassKills(cands, threshold, c)(j, i) <==> Rivals(cands, threshold, c, j, i);
  }

  /** Every zeroed candidate has a surviving suppressor of its class with a class score at least its own. */
  lemma ZeroedHasSuppressor(cands: seq<Candidate>, numClasses: nat, threshold: real, orders: seq<seq<nat>>, i: nat)
    returns (k: nat)
    requires ValidCandidates(cands, numClasses) && ValidOrders(orders, cands, numClasses) && i < |cands|
    requires !Alive(cands, threshold, orders, i)
    ensures k < |cands| && cands[k].classId == cands[i].classId && Alive(cands, threshold, orders, k)
    ensures Iou(cands[k].box, cands[i].box) >= threshold
    ensures cands[k].classScores[cands[i].classId] >= cands[i].classScores[cands[i].classId]
  {
    hide Iou;
    var c := cands[i].classId;
    var order, kills, p := orders[c], ClassKills(cands, threshold, c), Position(orders[c], i);
    var q :| 0 <= q < p && kills(order[q], order[p]) && Survives(order, kills, q);
    k := order[q];
    assert Position(order, k) == q;
  }

  // ----- Which cells become candidates, and the final score filter

  lemma {:induction false} MaskLowersSum(scores: seq<real>, threshold: real)
    requires forall c :: 0 <= c < |scores| ==> scores[c] >= 0.0
    ensures 0.0 <= Sum(Masked(scores, threshold)) <= Sum(scores)
    ensures forall c :: 0 <= c < |scores| ==> scores[c] <= Sum(scores)
  {
    SumBoundsTerms(Masked(scores, threshold));
    SumBoundsTerms(scores);
    if scores != [] {
      var n := |scores| - 1;
      MaskLowersSum(scores[..n], threshold);
      assert Masked(scores, threshold)[..n] == Masked(scores[..n], threshold);
    }
  }

  lemma {:induction false} PositiveSumHasPositiveTerm(s: seq<real>) returns (c: nat)
    requires Sum(s) > 0.0
    ensures c < |s| && s[c] > 0.0
  {
    if s[|s| - 1] > 0.0 {
      c := |s| - 1;
    } else {
      c := PositiveSumHasPositiveTerm(s[..|s| - 1]);
    }
  }

  /** Every candidate names a class it scores in, and its objectness exceeds the threshold. */
  lemma CandidatesValid(cells: seq<Cell>, numClasses: nat, objThreshold: real)
    requires Activated(cells, numClasses)
    ensures ValidCandidates(Candidates(cells, objThreshold), numClasses)
    ensures forall i :: 0 <= i < |Candidates(cells, objThreshold)| ==>
              Candidates(cells, objThreshold)[i].objectness > objThreshold
  {
    var keep, cands := PassingCells(cells, objThreshold), Candidates(cells, objThreshold);
    forall i | 0 <= i < |cands|
      ensures |cands[i].classScores| == numClasses && cands[i].classId < numClasses
      ensures cands[i].classScores[cands[i].classId] > 0.0
      ensures cands[i].objectness > 0.0 && cands[i].objectness > objThreshold
    {
      assert keep[i] in keep;
      CellValid(cells[keep[i]], numClasses, objThreshold);
    }
  }

  lemma CellValid(cell: Cell, numClasses: nat, objThreshold: real)
    requires Activated([cell], numClasses) && Passes(cell, objThreshold)
    ensures var cand := FromCell(cell, objThreshold);
            && |cand.classScores| == numClasses && cand.classId < numClasses && cand.classScores[cand.classId] > 0.0
            && cand.objectness > 0.0 && cand.objectness > objThreshold
  {
    assert [cell][0] == cell;
    var masked := Masked(cell.classScores, objThreshold);
    MaskLowersSum(cell.classScores, objThreshold);
    var c := PositiveSumHasPositiveTerm(masked);
    assert masked[c] == cell.classScores[c];
  }

  /** With a non-negative threshold a cell passes the filter exactly when some class score exceeds
      the threshold, and its label is then its strongest class. */
  lemma CellPassesIff(cell: Cell, objThreshold: real)
    requires Activated([cell], |cell.classScores|) && objThreshold >= 0.0
    ensures var scores := cell.classScores;
            && (Passes(cell, objThreshold) <==> exists c :: 0 <= c < |scores| && scores[c] > objThreshold)
            && (Passes(cell, objThreshold) ==>
                  var best := FromCell(cell, objThreshold).classId;
                  best < |scores| && forall c :: 0 <= c < |scores| ==> scores[c] <= scores[best])
  {
    assert [cell][0] == cell;
    var scores := cell.classScores;
    var masked := Masked(scores, objThreshold);
    SumBoundsTerms(masked);
    forall c | 0 <= c < |scores| && scores[c] > objThreshold ensures Sum(masked) > 0.0 {
      assert masked[c] <= Sum(masked);
    }
    if Sum(masked) > 0.0 {
      var c := PositiveSumHasPositiveTerm(masked);
      assert scores[c] > objThreshold;
      assert masked[ArgMax(masked)] >= masked[c] > 0.0;
      forall d | 0 <= d < |scores| ensures scores[d] <= scores[ArgMax(masked)] {
        assert masked[d] <= masked[ArgMax(masked)];
      }
    }
  }

  // ----- When the final filter is exact

  /** The final filter (scores > obj_threshold) removes exactly the suppressed boxes. */
  ghost predicate FilterExact(cells: seq<Cell>, numClasses: nat, objThreshold: real, nmsThreshold: real,
      orders: seq<seq<nat>>)
    requires Activated(cells, numClasses)
    requires ValidOrders(orders, Candidates(cells, objThreshold), numClasses)
  {
    var cands := Candidates(cells, objThreshold);
    CandidatesValid(cells, numClasses, objThreshold);
    var final := FinalScores(cands, numClasses, nmsThreshold, orders);
    forall i :: 0 <= i < |cands| ==> (final[i] > objThreshold <==> Alive(cands, nmsThreshold, orders, i))
  }

  /** Above 1 the threshold is out of reach of any overlap. */
  lemma NothingReachesThreshold(cands: seq<Candidate>, numClasses: nat, threshold: real, orders: seq<seq<nat>>, i: nat)
    requires ValidCandidates(cands, numClasses) && ValidOrders(orders, cands, numClasses) && i < |cands|
    requires threshold > 1.0
    ensures Alive(cands, threshold, orders, i)
  {
    hide Alive, Iou;
    if !Alive(cands, threshold, orders, i) {
      var k := ZeroedHasSuppressor(cands, numClasses, threshold, orders, i);
      OverlapMeasures(cands[k].box, cands[i].box);
    }
  }

  /** A suppressed box scores zero, and the others their objectness, which exceeds the threshold. */
  lemma FilterIsExact(cells: seq<Cell>, numClasses: nat, objThreshold: real, nmsThreshold: real,
      orders: seq<seq<nat>>)
    requires Activated(cells, numClasses)
    requires ValidOrders(orders, Candidates(cells, objThreshold), numClasses)
    requires objThreshold >= 0.0 || nmsThreshold > 1.0 || numClasses == 0
    ensures FilterExact(cells, numClasses, objThreshold, nmsThreshold, orders)
  {
    hide Alive, Candidates;
    var cands := Candidates(cells, objThreshold);
    CandidatesValid(cells, numClasses, objThreshold);
    forall i: nat | i < |cands| && objThreshold < 0.0 ensures Alive(cands, nmsThreshold, orders, i) {
      assert cands[i].classId < numClasses;
      NothingReachesThreshold(cands, numClasses, nmsThreshold, orders, i);
    }
  }

  /** A cell with objectness one half, shared out evenly over the classes. */
  function EvenCell(numClasses: nat): Cell
    requires numClasses > 0
  {
    Cell(UNIT_BOX, 0.5, seq(numClasses, _ => 0.5 / numClasses as real))
  }

  lemma {:induction false} SumOfEqual(share: real, n: nat)
    ensures Sum(seq(n, _ => share)) == n as real * share
  {
    if n > 0 {
      SumOfEqual(share, n - 1);
      assert seq(n, _ => share)[..n - 1] == seq(n - 1, _ => share);
    }
  }

  lemma EvenShare(numClasses: nat)
    requires numClasses > 0
    ensures 0.5 / numClasses as real > 0.0 && numClasses as real * (0.5 / numClasses as real) == 0.5
  {
  }

  lemma EvenCellPasses(numClasses: nat, objThreshold: real)
    requires numClasses > 0 && objThreshold < 0.0
    ensures var cell := EvenCell(numClasses);
            && (forall c :: 0 <= c < numClasses ==> cell.classScores[c] > 0.0)
            && Sum(cell.classScores) == 0.5 && Passes(cell, objThreshold)
            && FromCell(cell, objThreshold) == Candidate(UNIT_BOX, 0.5, cell.classScores, 0)
  {
    var scores := EvenCell(numClasses).classScores;
    EvenShare(numClasses);
    SumOfEqual(0.5 / numClasses as real, numClasses);
    assert forall c :: 0 <= c < numClasses ==> scores[c] == 0.5 / numClasses as real;
    assert Masked(scores, objThreshold) == scores;
    assert scores[0] >= scores[ArgMax(scores)];
  }

  lemma TwinCandidates(numClasses: nat, objThreshold: real)
    requires numClasses > 0 && objThreshold < 0.0
    ensures var cell := EvenCell(numClasses); var cand := Candidate(UNIT_BOX, 0.5, cell.classScores, 0);
            Candidates([cell, cell], objThreshold) == [cand, cand]
  {
    hide Passes, FromCell, EvenCell, Iou;
    var cell := EvenCell(numClasses);
    EvenCellPasses(numClasses, objThreshold);
    AscendingUnique(PassingCells([cell, cell], objThreshold), [0, 1]);
  }

  lemma TwinOrders(numClasses: nat, cand: Candidate)
    requires |cand.classScores| == numClasses
    ensures ValidOrders(seq(numClasses, _ => [0, 1]), [cand, cand], numClasses)
  {
    var order: seq<nat> := [0, 1];
    assert order[0] == 0 && order[1] == 1;
    assert IsPermutation(order, 2);
  }

  /** With a negative threshold and an NMS threshold of at most 1, the second of two equal boxes with
      positive scores is suppressed and reported all the same. */
  lemma SuppressedIsReported(numClasses: nat, objThreshold: real, nmsThreshold: real)
    returns (cells: seq<Cell>, orders: seq<seq<nat>>)
    requires numClasses > 0 && objThreshold < 0.0 && nmsThreshold <= 1.0
    ensures Activated(cells, numClasses) && ValidOrders(orders, Candidates(cells, objThreshold), numClasses)
    ensures forall cell :: cell in cells ==> forall c :: 0 <= c < numClasses ==> cell.classScores[c] > 0.0
    ensures !FilterExact(cells, numClasses, objThreshold, nmsThreshold, orders)
  {
    hide Iou, Passes, FromCell, Candidates, Alive, ClassKills;
    var cell := EvenCell(numClasses);
    var cand := Candidate(UNIT_BOX, 0.5, cell.classScores, 0);
    cells, orders := [cell, cell], seq(numClasses, _ => [0, 1]);
    EvenCellPasses(numClasses, objThreshold);
    TwinCandidates(numClasses, objThreshold);
    TwinOrders(numClasses, cand);
    CandidatesValid(cells, numClasses, objThreshold);
    TwinDies([cand, cand], nmsThreshold, orders, cand);
  }

  lemma TwinDies(cands: seq<Candidate>, threshold: real, orders: seq<seq<nat>>, cand: Candidate)
    requires cands == [cand, cand] && cand.box == UNIT_BOX && cand.classId == 0 && threshold <= 1.0
    requires |orders| > 0 && orders[0] == [0, 1] && IsPermutation(orders[0], 2)
    ensures !Alive(cands, threshold, orders, 1)
  {
    hide Iou;
    UnitBoxOverlap();
    var order, kills := orders[0], ClassKills(cands, threshold, 0);
    assert order[0] == 0 && order[1] == 1;
    assert Survives(order, kills, 0) && kills(order[0], order[1]);
    assert Position(order, 1) == 1;
  }

  /** The final filter is exact for all cells and all orders of ties if and only if the threshold is
      not negative, or NMS is switched off by a threshold above 1, or there is no class at all. */
  lemma FinalFilterExactIff(numClasses: nat, objThreshold: real, nmsThreshold: real)
    ensures (forall cells, orders ::
              Activated(cells, numClasses) && ValidOrders(orders, Candidates(cells, objThreshold), numClasses) ==>
                FilterExact(cells, numClasses, objThreshold, nmsThreshold, orders))
            <==> objThreshold >= 0.0 || nmsThreshold > 1.0 || numClasses == 0
  {
    hide FilterExact, Activated, ValidOrders, Candidates;
    if objThreshold >= 0.0 || nmsThreshold > 1.0 || numClasses == 0 {
      forall cells, orders |
          Activated(cells, numClasses) && ValidOrders(orders, Candidates(cells, objThreshold), numClasses)
        ensures FilterExact(cells, numClasses, objThreshold, nmsThreshold, orders)
      {
        FilterIsExact(cells, numClasses, objThreshold, nmsThreshold, orders);
      }
    } else {
      var cells, orders := SuppressedIsReported(numClasses, objThreshold, nmsThreshold);
    }
  }

  // ----- The whole decode

  /** Positions whose final score passes the threshold. */
  function PassingIndices(final: seq<real>, objThreshold: real): (keep: seq<nat>)
    ensures Ascending(keep) && Selects(keep, |final|)
    ensures forall i :: i in keep <==> 0 <= i < |final| && final[i] > objThreshold
  {
    Sorted(set i | 0 <= i < |final| && final[i] > objThreshold, |final|)
  }

  function Passing(cands: seq<Candidate>, final: seq<real>, objThreshold: real): seq<Raw>
    requires |cands| == |final|
  {
    var keep := PassingIndices(final, objThreshold);
    seq(|keep|, k requires 0 <= k < |keep| => Raw(cands[keep[k]].box, final[keep[k]], cands[keep[k]].classId))
  }

  /** The label of a cell: the first of its strongest classes. */
  ghost predicate IsLabel(cell: Cell, best: nat) {
    && best < |cell.classScores|
    && (forall c :: 0 <= c < |cell.classScores| ==> cell.classScores[c] <= cell.classScores[best])
    && forall c :: 0 <= c < best ==> cell.classScores[c] < cell.classScores[best]
  }

  /** Some reported cell of the label beats the cell: it overlaps it by the threshold and scores at
      least as high in the label's class. */
  ghost predicate IsBeaten(cells: seq<Cell>, at: seq<nat>, nmsThreshold: real, cell: Cell, best: nat) {
    exists k :: 0 <= k < |at| && at[k] < |cells| && IsLabel(cells[at[k]], best)
      && best < |cell.classScores|
      && Iou(cells[at[k]].box, cell.box) >= nmsThreshold
      && cells[at[k]].classScores[best] >= cell.classScores[best]
  }

  /** Report k is cell at[k]: its box, its label, and its objectness as the score.  Only with a negative
      threshold can a beaten cell be reported as well, with score zero. */
  ghost predicate ReportsCell(cells: seq<Cell>, objThreshold: real, nmsThreshold: real, at: seq<nat>, cell: Cell,
      raw: Raw)
  {
    && raw.box == cell.box && raw.classId >= 0 && IsLabel(cell, raw.classId)
    && cell.classScores[raw.classId] > objThreshold
    && (raw.score == cell.objectness
        || (objThreshold < 0.0 && raw.score == 0.0 && IsBeaten(cells, at, nmsThreshold, cell, raw.classId)))
  }

  ghost predicate ReportsCells(cells: seq<Cell>, objThreshold: real, nmsThreshold: real, at: seq<nat>,
      raws: seq<Raw>)
  {
    && Ascending(at) && Selects(at, |cells|) && |raws| == |at|
    && forall k :: 0 <= k < |at| ==> ReportsCell(cells, objThreshold, nmsThreshold, at, cells[at[k]], raws[k])
  }

  ghost predicate ScoresAbove(cell: Cell, threshold: real) {
    exists c :: 0 <= c < |cell.classScores| && cell.classScores[c] > threshold
  }

  /** Every other cell with a class score above the threshold is beaten by a reported one. */
  ghost predicate OthersBeaten(cells: seq<Cell>, objThreshold: real, nmsThreshold: real, at: seq<nat>) {
    forall i :: 0 <= i < |cells| && i !in at && ScoresAbove(cells[i], objThreshold) ==>
      exists best :: IsLabel(cells[i], best) && IsBeaten(cells, at, nmsThreshold, cells[i], best)
  }

  /** What a candidate has kept of its cell. */
  lemma FromCellFacts(cell: Cell, numClasses: nat, objThreshold: real)
    requires Activated([cell], numClasses) && Passes(cell, objThreshold)
    ensures var cand := FromCell(cell, objThreshold);
            && cand.box == cell.box && cand.objectness == cell.objectness && IsLabel(cell, cand.classId)
            && |cand.classScores| == numClasses
            && cand.classScores[cand.classId] == cell.classScores[cand.classId] > objThreshold
            && forall c :: 0 <= c < numClasses ==> cand.classScores[c] <= cell.classScores[c]
  {
    assert [cell][0] == cell;
    CellValid(cell, numClasses, objThreshold);
    var masked := Masked(cell.classScores, objThreshold);
    var best := ArgMax(masked);
    assert masked[best] == cell.classScores[best] > objThreshold;
    forall c | 0 <= c < numClasses
      ensures masked[c] <= cell.classScores[c] <= cell.classScores[best]
      ensures c < best ==> cell.classScores[c] < cell.classScores[best]
    {
      assert masked[c] <= masked[best];
      assert masked[c] != cell.classScores[c] ==> cell.classScores[c] <= objThreshold;
    }
  }

  /** A cell that does not pass has no class score above a threshold that is not negative. */
  lemma WeakCell(cell: Cell, numClasses: nat, objThreshold: real, c: nat)
    requires Activated([cell], numClasses) && c < |cell.classScores| && cell.classScores[c] > objThreshold >= 0.0
    ensures Passes(cell, objThreshold)
  {
    assert [cell][0] == cell;
    var masked := Masked(cell.classScores, objThreshold);
    SumBoundsTerms(masked);
    assert masked[c] == cell.classScores[c];
  }

  /** The cells behind the reported detections. */
  function ReportedCells(cells: seq<Cell>, objThreshold: real, final: seq<real>): (at: seq<nat>)
    requires |final| == |Candidates(cells, objThreshold)|
    ensures Ascending(at) && Selects(at, |cells|) && |at| == |PassingIndices(final, objThreshold)|
  {
    var keep, passing := PassingIndices(final, objThreshold), PassingCells(cells, objThreshold);
    seq(|keep|, k requires 0 <= k < |keep| => passing[keep[k]])
  }

  lemma DecodedFromCells(cells: seq<Cell>, numClasses: nat, objThreshold: real, nmsThreshold: real,
      orders: seq<seq<nat>>)
    requires Activated(cells, numClasses)
    requires ValidOrders(orders, Candidates(cells, objThreshold), numClasses)
    requires ValidCandidates(Candidates(cells, objThreshold), numClasses)
    ensures var cands := Candidates(cells, objThreshold);
            var final := FinalScores(cands, numClasses, nmsThreshold, orders);
            var at := ReportedCells(cells, objThreshold, final);
            && ReportsCells(cells, objThreshold, nmsThreshold, at, Passing(cands, final, objThreshold))
            && (objThreshold >= 0.0 ==> OthersBeaten(cells, objThreshold, nmsThreshold, at))
  {
    hide Alive, Iou, IsLabel, IsBeaten, Passes, FromCell, OthersBeaten, Activated;
    var cands, passing := Candidates(cells, objThreshold), PassingCells(cells, objThreshold);
    var final := FinalScores(cands, numClasses, nmsThreshold, orders);
    var keep, at := PassingIndices(final, objThreshold), ReportedCells(cells, objThreshold, final);
    var raws := Passing(cands, final, objThreshold);
    forall k | 0 <= k < |at| ensures ReportsCell(cells, objThreshold, nmsThreshold, at, cells[at[k]], raws[k]) {
      assert keep[k] in keep;
      CandidateIsCell(cells, numClasses, objThreshold, keep[k]);
      if !Alive(cands, nmsThreshold, orders, keep[k]) {
        DeadIsBeaten(cells, numClasses, objThreshold, nmsThreshold, orders, keep[k]);
      }
    }
    if objThreshold >= 0.0 {
      OthersAreBeaten(cells, numClasses, objThreshold, nmsThreshold, orders);
    }
  }

  lemma CandidateIsCell(cells: seq<Cell>, numClasses: nat, objThreshold: real, i: nat)
    requires Activated(cells, numClasses) && i < |Candidates(cells, objThreshold)|
    ensures var cand, cell := Candidates(cells, objThreshold)[i], cells[PassingCells(cells, objThreshold)[i]];
            && cand.box == cell.box && cand.objectness == cell.objectness && IsLabel(cell, cand.classId)
            && |cand.classScores| == numClasses == |cell.classScores| && cand.objectness > objThreshold
            && cand.classScores[cand.classId] == cell.classScores[cand.classId] > objThreshold
            && forall c :: 0 <= c < numClasses ==> cand.classScores[c] <= cell.classScores[c]
  {
    hide Passes, FromCell, IsLabel;
    var passing := PassingCells(cells, objThreshold);
    assert passing[i] in passing;
    var cell := cells[passing[i]];
    assert [cell][0] == cell;
    FromCellFacts(cell, numClasses, objThreshold);
    CellValid(cell, numClasses, objThreshold);
  }

  /** A suppressed candidate's cell is beaten by a reported cell. */
  lemma DeadIsBeaten(cells: seq<Cell>, numClasses: nat, objThreshold: real, nmsThreshold: real,
      orders: seq<seq<nat>>, i: nat)
    requires Activated(cells, numClasses)
    requires ValidOrders(orders, Candidates(cells, objThreshold), numClasses)
    requires ValidCandidates(Candidates(cells, objThreshold), numClasses)
    requires i < |Candidates(cells, objThreshold)|
    requires !Alive(Candidates(cells, objThreshold), nmsThreshold, orders, i)
    ensures var cands := Candidates(cells, objThreshold);
            var at := ReportedCells(cells, objThreshold, FinalScores(cands, numClasses, nmsThreshold, orders));
            var cell := cells[PassingCells(cells, objThreshold)[i]];
            IsBeaten(cells, at, nmsThreshold, cell, cands[i].classId)
  {
    hide Alive, Iou, IsLabel, Passes, FromCell, Candidates, PassingCells, ValidOrders, Activated;
    var cands, passing := Candidates(cells, objThreshold), PassingCells(cells, objThreshold);
    var final := FinalScores(cands, numClasses, nmsThreshold, orders);
    var keep, at := PassingIndices(final, objThreshold), ReportedCells(cells, objThreshold, final);
    var j := ZeroedHasSuppressor(cands, numClasses, nmsThreshold, orders, i);
    CandidateIsCell(cells, numClasses, objThreshold, i);
    CandidateIsCell(cells, numClasses, objThreshold, j);
    AliveIsReported(cells, numClasses, objThreshold, nmsThreshold, orders, j);
    var k :| 0 <= k < |at| && at[k] == passing[j];
  }

  lemma AliveIsReported(cells: seq<Cell>, numClasses: nat, objThreshold: real, nmsThreshold: real,
      orders: seq<seq<nat>>, i: nat)
    requires Activated(cells, numClasses)
    requires ValidOrders(orders, Candidates(cells, objThreshold), numClasses)
    requires ValidCandidates(Candidates(cells, objThreshold), numClasses)
    requires i < |Candidates(cells, objThreshold)|
    requires Alive(Candidates(cells, objThreshold), nmsThreshold, orders, i)
    ensures var final := FinalScores(Candidates(cells, objThreshold), numClasses, nmsThreshold, orders);
            PassingCells(cells, objThreshold)[i] in ReportedCells(cells, objThreshold, final)
  {
    hide Alive, Passes, FromCell, Candidates, PassingCells, ValidOrders;
    var cands := Candidates(cells, objThreshold);
    var final := FinalScores(cands, numClasses, nmsThreshold, orders);
    var keep := PassingIndices(final, objThreshold);
    CandidateIsCell(cells, numClasses, objThreshold, i);
    assert i in keep;
    var k :| 0 <= k < |keep| && keep[k] == i;
    assert ReportedCells(cells, objThreshold, final)[k] == PassingCells(cells, objThreshold)[i];
  }

  lemma OthersAreBeaten(cells: seq<Cell>, numClasses: nat, objThreshold: real, nmsThreshold: real,
      orders: seq<seq<nat>>)
    requires Activated(cells, numClasses) && objThreshold >= 0.0
    requires ValidOrders(orders, Candidates(cells, objThreshold), numClasses)
    requires ValidCandidates(Candidates(cells, objThreshold), numClasses)
    ensures var final := FinalScores(Candidates(cells, objThreshold), numClasses, nmsThreshold, orders);
            OthersBeaten(cells, objThreshold, nmsThreshold, ReportedCells(cells, objThreshold, final))
  {
    hide Alive, Iou, IsLabel, IsBeaten, Passes, FromCell, Candidates;
    var cands, passing := Candidates(cells, objThreshold), PassingCells(cells, objThreshold);
    var final := FinalScores(cands, numClasses, nmsThreshold, orders);
    var keep, at := PassingIndices(final, objThreshold), ReportedCells(cells, objThreshold, final);
    forall i | 0 <= i < |cells| && i !in at && ScoresAbove(cells[i], objThreshold)
      ensures exists best :: IsLabel(cells[i], best) && IsBeaten(cells, at, nmsThreshold, cells[i], best)
    {
      var c :| 0 <= c < |cells[i].classScores| && cells[i].classScores[c] > objThreshold;
      assert [cells[i]][0] == cells[i];
      WeakCell(cells[i], numClasses, objThreshold, c);
      assert i in passing;
      var r: nat :| r < |passing| && passing[r] == i;
      CandidateIsCell(cells, numClasses, objThreshold, r);
      if Alive(cands, nmsThreshold, orders, r) {
        AliveIsReported(cells, numClasses, objThreshold, nmsThreshold, orders, r);
      } else {
        DeadIsBeaten(cells, numClasses, objThreshold, nmsThreshold, orders, r);
      }
    }
  }

  /** `orders` are numpy's argsorts of the class columns; `at` are the cells behind the detections. */
  method DecodeTile(cells: seq<Cell>, numClasses: nat, objThreshold: real, nmsThreshold: real, orders: seq<seq<nat>>)
    returns (raws: seq<Raw>, ghost at: seq<nat>)
    requires Activated(cells, numClasses)
    requires ValidOrders(orders, Candidates(cells, objThreshold), numClasses)
    ensures var cands := Candidates(cells, objThreshold);
            && ValidCandidates(cands, numClasses)
            && raws == Passing(cands, FinalScores(cands, numClasses, nmsThreshold, orders), objThreshold)
    ensures ReportsCells(cells, objThreshold, nmsThreshold, at, raws)
    ensures objThreshold >= 0.0 ==> OthersBeaten(cells, objThreshold, nmsThreshold, at)
  {
    hide FinalScores, OthersBeaten, ReportsCells;
    var cands := Candidates(cells, objThreshold);
    CandidatesValid(cells, numClasses, objThreshold);
    DecodedFromCells(cells, numClasses, objThreshold, nmsThreshold, orders);
    at := ReportedCells(cells, objThreshold, FinalScores(cands, numClasses, nmsThreshold, orders));
    if |cands| == 0 {
      return [], at;
    }
    var final := SuppressClasses(cands, numClasses, nmsThreshold, orders);
    raws := Passing(cands, final, objThreshold);
  }

  /** The detections a tile reports are separated within each class, and stay so once the merge
      has mapped them into the frame. */
  lemma DecodedStaySeparated(cells: seq<Cell>, numClasses: nat, objThreshold: real, nmsThreshold: real,
      orders: seq<seq<nat>>, tile: Tile, tileId: nat, frameSize: int, edgeEps: real, j: nat, k: nat)
    requires Activated(cells, numClasses) && objThreshold >= 0.0 && frameSize > 0 && tile.size > 0
    requires ValidOrders(orders, Candidates(cells, objThreshold), numClasses)
    requires var cands := Candidates(cells, objThreshold);
             && ValidCandidates(cands, numClasses)
             && var raws := Passing(cands, FinalScores(cands, numClasses, nmsThreshold, orders), objThreshold);
                j < |raws| && k < |raws| && j != k && raws[j].classId == raws[k].classId
    ensures var cands := Candidates(cells, objThreshold);
            var raws := Passing(cands, FinalScores(cands, numClasses, nmsThreshold, orders), objThreshold);
            var dets := TilePool(raws, tile, tileId, frameSize, edgeEps).dets;
            Iou(raws[j].box, raws[k].box) < nmsThreshold && Iou(dets[j].hit.box, dets[k].hit.box) < nmsThreshold
  {
    hide Iou, Alive, Candidates, ValidOrders, ValidCandidates, ToFrame, Truncation;
    var cands := Candidates(cells, objThreshold);
    var final := FinalScores(cands, numClasses, nmsThreshold, orders);
    var keep, raws := PassingIndices(final, objThreshold), Passing(cands, final, objThreshold);
    assert keep[j] in keep && keep[k] in keep;
    PassingAreAlive(cands, numClasses, objThreshold, nmsThreshold, orders, keep[j]);
    PassingAreAlive(cands, numClasses, objThreshold, nmsThreshold, orders, keep[k]);
    AliveSeparated(cands, numClasses, nmsThreshold, orders, keep[j], keep[k]);
    PoolingKeepsTileSeparation(raws, tile, tileId, frameSize, edgeEps, j, k, nmsThreshold);
  }

  lemma PassingAreAlive(cands: seq<Candidate>, numClasses: nat, objThreshold: real, threshold: real,
      orders: seq<seq<nat>>, i: nat)
    requires ValidCandidates(cands, numClasses) && ValidOrders(orders, cands, numClasses) && objThreshold >= 0.0
    requires i in PassingIndices(FinalScores(cands, numClasses, threshold, orders), objThreshold)
    ensures i < |cands| && Alive(cands, threshold, orders, i)
  {
  }
}
