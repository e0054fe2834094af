/** Exactly when average precision falls with the IoU threshold: it depends on nothing but how each
    image's list is ordered. */
module ApThreshold {
  import opened Geometry
  import opened Detections
  import opened Numeric
  import opened DiscreteAp
  import opened Matching
  import opened MeanAp

  /** No higher threshold gives a class a higher average precision. */
  ghost predicate ApFalls(images: seq<Image>, order: seq<nat>)
    requires ValidImages(images) && IsRanking(order, Items(images, |images|))
  {
    forall low, high :: low <= high ==> ClassAp(images, low, order) >= ClassAp(images, high, order)
  }

  /** The same images with the same scores, against any annotations and with any overlaps. */
  ghost predicate SameScores(images: seq<Image>, base: seq<Image>) {
    |images| == |base| && forall i :: 0 <= i < |base| ==> images[i].scores == base[i].scores
  }

  // ----- Where an image's detections sit in the class's list

  lemma {:induction false} ItemAt(images: seq<Image>, n: nat, i: nat, k: nat)
    requires ValidImages(images) && i < n <= |images| && k < |images[i].scores|
    ensures var g := |Items(images, i)| + k;
            g < |Items(images, n)| && Items(images, n)[g] == ItemOf(images[i], i, k)
  {
    hide ItemOf;
    if i < n - 1 {
      ItemAt(images, n - 1, i, k);
    }
  }

  lemma {:induction false} FindItem(images: seq<Image>, n: nat, g: nat) returns (i: nat, k: nat)
    requires ValidImages(images) && n <= |images| && g < |Items(images, n)|
    ensures i < n && k < |images[i].scores| && g == |Items(images, i)| + k
    ensures Items(images, n)[g] == ItemOf(images[i], i, k)
  {
    hide ItemOf;
    var before := |Items(images, n - 1)|;
    if g < before {
      i, k := FindItem(images, n - 1, g);
    } else {
      i, k := n - 1, g - before;
    }
  }

  /** What the order of a list depends on: images and scores, not annotations or overlaps. */
  ghost predicate SameListing(a: seq<Item>, b: seq<Item>) {
    |a| == |b| && forall g :: 0 <= g < |a| ==> a[g].image == b[g].image && a[g].score == b[g].score
  }

  lemma {:induction false} SameScoresSameListing(images: seq<Image>, base: seq<Image>, n: nat)
    requires ValidImages(images) && ValidImages(base) && SameScores(images, base) && n <= |base|
    ensures SameListing(Items(images, n), Items(base, n))
  {
    hide ItemOf;
    if n > 0 {
      SameScoresSameListing(images, base, n - 1);
      var a, b := ImageItems(images[n - 1], n - 1), ImageItems(base[n - 1], n - 1);
      forall k: nat | k < |a| ensures a[k].image == b[k].image && a[k].score == b[k].score {
        ItemFields(images[n - 1], n - 1, k);
        ItemFields(base[n - 1], n - 1, k);
      }
    }
  }

  lemma SameListingSameOrders(a: seq<Item>, b: seq<Item>, order: seq<nat>)
    requires SameListing(a, b)
    ensures IsRanking(order, a) <==> IsRanking(order, b)
    ensures Selects(order, |a|) ==> (KeepsListOrder(a, order) <==> KeepsListOrder(b, order))
  {
  }

  // ----- One annotation, reached by two detections of one image

  /** One annotation that detection j overlaps by a half, detection k fully and no other at all. */
  function TiedImage(scores: seq<real>, j: nat, k: nat): Image {
    Image(scores, seq(|scores|, m => [if m == j then 0.5 else if m == k then 1.0 else 0.0]), 1)
  }

  function BlankImage(scores: seq<real>): Image {
    Image(scores, seq(|scores|, _ => []), 0)
  }

  function TiedImages(base: seq<Image>, i: nat, j: nat, k: nat): seq<Image> {
    seq(|base|, t requires 0 <= t < |base| =>
      if t == i then TiedImage(base[t].scores, j, k) else BlankImage(base[t].scores))
  }

  lemma TiedValid(base: seq<Image>, i: nat, j: nat, k: nat)
    ensures ValidImages(TiedImages(base, i, j, k)) && SameScores(TiedImages(base, i, j, k), base)
  {
  }

  lemma {:induction false} TiedTotal(base: seq<Image>, i: nat, j: nat, k: nat, n: nat)
    requires n <= |base|
    ensures Total(TiedImages(base, i, j, k), n) == if i < n then 1 else 0
  {
    if n > 0 {
      TiedTotal(base, i, j, k, n - 1);
    }
  }

  /** At 0.5 both of the two reach the annotation, above only the second. */
  lemma TiedClaims(base: seq<Image>, i: nat, j: nat, k: nat, high: real, g: nat)
    requires ValidImages(base) && i < |base| && j < k < |base[i].scores| && 0.5 < high <= 1.0
    requires ValidImages(TiedImages(base, i, j, k)) && g < |Items(TiedImages(base, i, j, k), |base|)|
    ensures var images := TiedImages(base, i, j, k); var item := Items(images, |base|)[g];
            var first, second := |Items(images, i)| + j, |Items(images, i)| + k;
            && (Claims(item, 0.5) <==> g == first || g == second)
            && (Claims(item, high) <==> g == second)
            && (g == first || g == second ==> Target(item) == (i, 0))
  {
    hide ItemOf, Items, ValidImages;
    var images := TiedImages(base, i, j, k);
    ItemAt(images, |base|, i, j);
    ItemAt(images, |base|, i, k);
    TiedItem(images[i], i, j, base[i].scores, true, j, k);
    TiedItem(images[i], i, k, base[i].scores, true, j, k);
    var t, m := FindItem(images, |base|, g);
    TiedItem(images[t], t, m, base[t].scores, t == i, j, k);
    assert t == i ==> g == |Items(images, i)| + m;
  }

  lemma TiedItem(image: Image, t: nat, m: nat, scores: seq<real>, tied: bool, j: nat, k: nat)
    requires m < |scores| && j < k && image == if tied then TiedImage(scores, j, k) else BlankImage(scores)
    ensures var item := ItemOf(image, t, m);
            && item.image == t && (item.matchable <==> tied)
            && (tied ==> item.annotation == 0 && item.overlap == if m == j then 0.5 else if m == k then 1.0 else 0.0)
  {
  }

  /** So at 0.5 only the first is a true positive, and above only the second. */
  lemma TiedTrue(items: seq<Item>, first: nat, second: nat, high: real, g: nat)
    requires first < second < |items| && g < |items|
    requires forall e :: 0 <= e < |items| ==> (Claims(items[e], 0.5) <==> e == first || e == second)
    requires forall e :: 0 <= e < |items| ==> (Claims(items[e], high) <==> e == second)
    requires Target(items[first]) == Target(items[second])
    ensures IsTrue(items, 0.5, g) <==> g == first
    ensures IsTrue(items, high, g) <==> g == second
  {
    hide Claims;
    assert SameTarget(items[first], items[second]);
  }

  // ----- A single true positive

  ghost predicate OnlyAt(flags: seq<bool>, p: nat) {
    p < |flags| && forall r :: 0 <= r < |flags| ==> (flags[r] <==> r == p)
  }

  lemma {:induction false} CumOnlyAt(flags: seq<bool>, p: nat, k: nat)
    requires OnlyAt(flags, p) && k <= |flags|
    ensures Cum(flags, k) == if p < k then 1 else 0
  {
    if k > 0 {
      CumOnlyAt(flags, p, k - 1);
    }
  }

  lemma UnitFractions(k: nat, m: nat)
    requires 0 < k < m
    ensures 0.0 < 1.0 / m as real < 1.0 / k as real
  {
    LargerWholeSmallerRatio(1.0, k as real, m as real);
    var q := 1.0 / m as real;
    assert q * m as real == 1.0;
  }

  /** Its rank alone decides: the better the rank, the higher the average precision. */
  lemma EarlierIsBetter(late: seq<bool>, q: nat, soon: seq<bool>, r: nat)
    requires OnlyAt(late, q) && OnlyAt(soon, r) && r < q
    ensures Ap(late, 1) < Ap(soon, 1)
  {
    SingleAp(late, q);
    SingleAp(soon, r);
    UnitFractions(r + 1, q + 1);
  }

  lemma SingleAp(flags: seq<bool>, p: nat)
    requires OnlyAt(flags, p)
    ensures Ap(flags, 1) == 1.0 / (p + 1) as real
  {
    hide Best, Cum, Rate;
    var n := |flags|;
    CumOnlyAt(flags, p, n);
    assert BestSum(flags, 0) == 0.0;
    assert BestSum(flags, 1) == Best(flags, 1, n);
    SingleBest(flags, p);
    DivisionUnique(Best(flags, 1, n), 1.0, Best(flags, 1, n));
  }

  lemma SingleBest(flags: seq<bool>, p: nat)
    requires OnlyAt(flags, p)
    ensures Best(flags, 1, |flags|) == 1.0 / (p + 1) as real
  {
    hide Best, Cum;
    var n := |flags|;
    BestBounds(flags, 1, n);
    forall k | 0 < k <= n ensures Cum(flags, k) == if p < k then 1 else 0 {
      CumOnlyAt(flags, p, k);
    }
    assert Rate(flags, p + 1) <= Best(flags, 1, n);
    UnitFractions(p + 1, p + 2);
    var k :| 0 < k <= n && Cum(flags, k) >= 1 && Rate(flags, k) == Best(flags, 1, n);
    if p + 1 < k {
      UnitFractions(p + 1, k);
    }
  }

  // ----- A ranking decides for all overlaps

  /** A ranking that visits a later detection of an image first has overlaps for which every threshold
      above 0.5 and up to 1 gives a higher average precision than 0.5. */
  lemma BrokenOrderRaisesAp(base: seq<Image>, order: seq<nat>) returns (images: seq<Image>)
    requires ValidImages(base) && IsRanking(order, Items(base, |base|))
    requires !KeepsListOrder(Items(base, |base|), order)
    ensures ValidImages(images) && SameScores(images, base) && IsRanking(order, Items(images, |images|))
    ensures forall high | 0.5 < high <= 1.0 :: ClassAp(images, 0.5, order) < ClassAp(images, high, order)
  {
    hide ItemOf, Items, ValidImages, SameScores, TiedImages;
    var listed := Items(base, |base|);
    var q, r :| 0 <= q < |order| && 0 <= r < |order| && order[q] < order[r]
        && listed[order[q]].image == listed[order[r]].image && r <= q;
    var i, j := FindItem(base, |base|, order[q]);
    var i', k := FindItem(base, |base|, order[r]);
    ItemFieldsAt(base, i, j);
    ItemFieldsAt(base, i', k);
    images := TiedImages(base, i, j, k);
    TiedValid(base, i, j, k);
    SameScoresSameListing(images, base, |base|);
    SameScoresSameListing(images, base, i);
    SameListingSameOrders(Items(images, |base|), listed, order);
    forall high: real | 0.5 < high <= 1.0 ensures ClassAp(images, 0.5, order) < ClassAp(images, high, order) {
      TiedRanks(base, i, j, k, order, q, r, high);
    }
  }

  lemma ItemFieldsAt(images: seq<Image>, i: nat, k: nat)
    requires ValidImages(images) && i < |images| && k < |images[i].scores|
    ensures ItemOf(images[i], i, k).image == i
  {
    ItemFields(images[i], i, k);
  }

  lemma TiedRanks(base: seq<Image>, i: nat, j: nat, k: nat, order: seq<nat>, q: nat, r: nat, high: real)
    requires ValidImages(base) && i < |base| && j < k < |base[i].scores| && 0.5 < high <= 1.0
    requires ValidImages(TiedImages(base, i, j, k)) && |TiedImages(base, i, j, k)| == |base|
    requires IsRanking(order, Items(TiedImages(base, i, j, k), |base|)) && r < q < |order|
    requires var from := |Items(TiedImages(base, i, j, k), i)|; order[q] == from + j && order[r] == from + k
    ensures ClassAp(TiedImages(base, i, j, k), 0.5, order) < ClassAp(TiedImages(base, i, j, k), high, order)
  {
    hide Items, ValidImages, TiedImages, Ap, Claims, IsTrue;
    var images := TiedImages(base, i, j, k);
    var items := Items(images, |base|);
    var first, second := order[q], order[r];
    forall g: nat | g < |items|
      ensures Claims(items[g], 0.5) <==> g == first || g == second
      ensures Claims(items[g], high) <==> g == second
      ensures g == first || g == second ==> Target(items[g]) == (i, 0)
    {
      TiedClaims(base, i, j, k, high, g);
    }
    forall g: nat | g < |items|
      ensures (IsTrue(items, 0.5, g) <==> g == first) && (IsTrue(items, high, g) <==> g == second)
    {
      TiedTrue(items, first, second, high, g);
    }
    TiedTotal(base, i, j, k, |base|);
    EarlierIsBetter(RankedFlags(items, 0.5, order), q, RankedFlags(items, high, order), r);
  }

  lemma Rises(images: seq<Image>, order: seq<nat>)
    requires ValidImages(images) && IsRanking(order, Items(images, |images|))
    requires forall high | 0.5 < high <= 1.0 :: ClassAp(images, 0.5, order) < ClassAp(images, high, order)
    ensures !ApFalls(images, order)
  {
    hide ClassAp, Items;
    assert ClassAp(images, 0.5, order) < ClassAp(images, 0.75, order);
  }

  /** For a given ranking: average precision falls with the threshold, whatever the annotations and
      overlaps, if and only if the ranking keeps each image's list order. */
  lemma RankingDecides(base: seq<Image>, order: seq<nat>)
    requires ValidImages(base) && IsRanking(order, Items(base, |base|))
    ensures KeepsListOrder(Items(base, |base|), order) <==>
        forall images | ValidImages(images) && SameScores(images, base) ::
          IsRanking(order, Items(images, |images|)) && ApFalls(images, order)
  {
    assert Selects(order, |Items(base, |base|)|);
    hide Items, ValidImages, SameScores, ClassAp, IsRanking, KeepsListOrder;
    if KeepsListOrder(Items(base, |base|), order) {
      forall images | ValidImages(images) && SameScores(images, base)
        ensures IsRanking(order, Items(images, |images|)) && ApFalls(images, order)
      {
        KeepingFalls(base, images, order);
      }
    } else {
      var images := BrokenOrderRaisesAp(base, order);
      Rises(images, order);
    }
  }

  lemma KeepingFalls(base: seq<Image>, images: seq<Image>, order: seq<nat>)
    requires ValidImages(base) && IsRanking(order, Items(base, |base|))
    requires KeepsListOrder(Items(base, |base|), order)
    requires ValidImages(images) && SameScores(images, base)
    ensures IsRanking(order, Items(images, |images|)) && ApFalls(images, order)
  {
    hide Items, ValidImages, ClassAp, KeepsListOrder;
    SameScoresSameListing(images, base, |base|);
    SameListingSameOrders(Items(images, |base|), Items(base, |base|), order);
    forall low: real, high: real | low <= high ensures ClassAp(images, low, order) >= ClassAp(images, high, order) {
      ApFallsWithThreshold(images, low, high, order);
    }
  }

  // ----- Scores decide for all rankings and overlaps

  /** Some descending sort of the list. */
  ghost function SomeRanking(items: seq<Item>): (order: seq<nat>)
    ensures IsRanking(order, items)
  {
    var hits := seq(|items|, g requires 0 <= g < |items| => Hit(UNIT_BOX, items[g].score, 0, false));
    StableIsRanking(items, hits);
    VisitOrder(hits, false)
  }

  lemma {:induction false} StableIsRanking(items: seq<Item>, hits: seq<Hit>)
    requires |hits| == |items| && forall g :: 0 <= g < |items| ==> hits[g].score == items[g].score
    ensures IsRanking(VisitOrder(hits, false), items)
  {
    hide VisitOrder;
    var order := VisitOrder(hits, false);
    forall q, r | 0 <= q < r < |order| ensures items[order[q]].score >= items[order[r]].score {
      assert Before(hits, false, order[q], order[r]);
    }
  }

  lemma SwapKeepsPermutation(order: seq<nat>, n: nat, a: nat, b: nat)
    requires IsPermutation(order, n) && a < b < n
    ensures IsPermutation(order[a := order[b]][b := order[a]], n)
  {
    var swapped := order[a := order[b]][b := order[a]];
    forall i: nat | i < n ensures i in swapped {
      assert i in order;
      var t :| 0 <= t < n && order[t] == i;
      assert swapped[if t == a then b else if t == b then a else t] == i;
    }
  }

  /** Detections of equal score may change places. */
  lemma SwapKeepsRanking(items: seq<Item>, order: seq<nat>, a: nat, b: nat)
    requires IsRanking(order, items) && a < b < |order| && items[order[a]].score == items[order[b]].score
    ensures IsRanking(order[a := order[b]][b := order[a]], items)
  {
    SwapKeepsPermutation(order, |items|, a, b);
    var swapped := order[a := order[b]][b := order[a]];
    assert forall t :: 0 <= t < |order| ==> items[swapped[t]].score == items[order[t]].score;
  }

  /** Of two detections that are not in strictly decreasing order of score, some descending sort puts
      the second first. */
  lemma LaterFirst(items: seq<Item>, first: nat, second: nat) returns (order: seq<nat>)
    requires first < second < |items| && items[first].score <= items[second].score
    requires items[first].image == items[second].image
    ensures IsRanking(order, items) && !KeepsListOrder(items, order)
  {
    hide SomeRanking;
    order := SomeRanking(items);
    var a, b := Position(order, first), Position(order, second);
    if a < b {
      SwapKeepsRanking(items, order, a, b);
      order := order[a := second][b := first];
      assert order[b] == first && order[a] == second;
    } else {
      assert order[a] == first && order[b] == second;
    }
  }

  /** Whatever descending sort ranks the detections, whatever the annotations and overlaps, average
      precision falls with the threshold if and only if each image lists its detections by strictly
      decreasing score. */
  lemma ScoresDecide(base: seq<Image>)
    requires ValidImages(base)
    ensures StrictlyScored(base) <==>
        forall images, order | ValidImages(images) && SameScores(images, base)
            && IsRanking(order, Items(images, |images|)) ::
          ApFalls(images, order)
  {
    hide Items, ValidImages, IsRanking, KeepsListOrder, ApFalls;
    if StrictlyScored(base) {
      forall images, order | ValidImages(images) && SameScores(images, base)
          && IsRanking(order, Items(images, |images|))
        ensures ApFalls(images, order)
      {
        hide StrictlyScored;
        StrictKeeps(base, images, order);
      }
    } else {
      var i, j, k :| 0 <= i < |base| && 0 <= j < k < |base[i].scores| && base[i].scores[j] <= base[i].scores[k];
      var images, order := TieRaisesAp(base, i, j, k);
      Rises(images, order);
    }
  }

  lemma StrictKeeps(base: seq<Image>, images: seq<Image>, order: seq<nat>)
    requires ValidImages(base) && StrictlyScored(base) && ValidImages(images) && SameScores(images, base)
    requires IsRanking(order, Items(images, |images|))
    ensures ApFalls(images, order)
  {
    hide Items, ValidImages, ClassAp, KeepsListOrder;
    assert StrictlyScored(images);
    DistinctScoresKeepListOrder(images, order);
    forall low: real, high: real | low <= high ensures ClassAp(images, low, order) >= ClassAp(images, high, order) {
      ApFallsWithThreshold(images, low, high, order);
    }
  }

  lemma TieRaisesAp(base: seq<Image>, i: nat, j: nat, k: nat) returns (images: seq<Image>, order: seq<nat>)
    requires ValidImages(base) && i < |base| && j < k < |base[i].scores| && base[i].scores[j] <= base[i].scores[k]
    ensures ValidImages(images) && SameScores(images, base) && IsRanking(order, Items(images, |images|))
    ensures forall high | 0.5 < high <= 1.0 :: ClassAp(images, 0.5, order) < ClassAp(images, high, order)
  {
    hide Items, ItemOf, KeepsListOrder, SameScores, ClassAp, IsRanking;
    var items, from := Items(base, |base|), |Items(base, i)|;
    ItemAt(base, |base|, i, j);
    ItemAt(base, |base|, i, k);
    ItemFields(base[i], i, j);
    ItemFields(base[i], i, k);
    order := LaterFirst(items, from + j, from + k);
    images := BrokenOrderRaisesAp(base, order);
  }

  /** Each image lists its detections in non-increasing order of score, as the evaluator is given them. */
  ghost predicate ListedByScore(images: seq<Image>) {
    forall i :: 0 <= i < |images| ==> forall j, k :: 0 <= j < k < |images[i].scores| ==>
        images[i].scores[j] >= images[i].scores[k]
  }

  ghost predicate NoEqualScores(images: seq<Image>) {
    forall i :: 0 <= i < |images| ==> forall j, k :: 0 <= j < k < |images[i].scores| ==>
        images[i].scores[j] != images[i].scores[k]
  }

  /** On the lists the evaluator is given, average precision falls with the threshold for every
      ranking and every overlap table if and only if no image holds two equal scores. */
  lemma ApFallsIff(base: seq<Image>)
    requires ValidImages(base) && ListedByScore(base)
    ensures NoEqualScores(base) <==>
        forall images, order | ValidImages(images) && SameScores(images, base)
            && IsRanking(order, Items(images, |images|)) ::
          ApFalls(images, order)
  {
    ScoresDecide(base);
    StrictIs(base);
  }

  lemma StrictIs(base: seq<Image>)
    requires ListedByScore(base)
    ensures StrictlyScored(base) <==> NoEqualScores(base)
  {
    if NoEqualScores(base) {
      forall i | 0 <= i < |base| ensures forall j, k :: 0 <= j < k < |base[i].scores| ==>
          base[i].scores[j] > base[i].scores[k] {
        forall j, k | 0 <= j < k < |base[i].scores| ensures base[i].scores[j] > base[i].scores[k] {
          assert base[i].scores[j] >= base[i].scores[k] && base[i].scores[j] != base[i].scores[k];
        }
      }
    }
  }

  // ----- The headline numbers

  /** The same classes, images and scores, against any annotations, overlaps and rankings. */
  ghost predicate SameListings(classes: seq<ClassData>, base: seq<seq<Image>>) {
    |classes| == |base| && forall c :: 0 <= c < |base| ==> SameScores(classes[c].images, base[c])
  }

  /** What the evaluation returns per threshold. */
  ghost function PerThreshold(classes: seq<ClassData>): (results: seq<real>)
    requires ValidClasses(classes)
    ensures |results| == |THRESHOLDS|
  {
    seq(|THRESHOLDS|, h requires 0 <= h < |THRESHOLDS| => MeanAt(classes, THRESHOLDS[h]))
  }

  ghost predicate LeadsMap75(classes: seq<ClassData>)
    requires ValidClasses(classes)
  {
    var summary := Summarise(PerThreshold(classes)); summary.map50 >= summary.map75
  }

  ghost predicate LeadsMean(classes: seq<ClassData>)
    requires ValidClasses(classes)
  {
    var summary := Summarise(PerThreshold(classes)); summary.map50 >= summary.mean
  }

  /** A class without annotations, ranked by some descending sort. */
  ghost function BlankClass(images: seq<Image>): (data: ClassData)
    ensures data.Valid() && SameScores(data.images, images)
    ensures forall i :: 0 <= i < |data.images| ==> data.images[i].annotations == 0
  {
    var blank := seq(|images|, t requires 0 <= t < |images| => BlankImage(images[t].scores));
    assert ValidImages(blank);
    ClassData(blank, SomeRanking(Items(blank, |blank|)))
  }

  lemma {:induction false} NothingAnnotated(images: seq<Image>, n: nat)
    requires n <= |images| && forall i :: 0 <= i < |images| ==> images[i].annotations == 0
    ensures Total(images, n) == 0
  {
    if n > 0 {
      NothingAnnotated(images, n - 1);
    }
  }

  lemma BlankScoresZero(images: seq<Image>, threshold: real)
    ensures var data := BlankClass(images); ClassAp(data.images, threshold, data.order) == 0.0
  {
    hide RankedFlags;
    var data := BlankClass(images);
    NothingAnnotated(data.images, |data.images|);
  }

  lemma {:induction false} SumStrict(s: seq<real>, t: seq<real>, c: nat)
    requires c < |s| == |t| && s[c] < t[c] && forall k :: 0 <= k < |s| ==> s[k] <= t[k]
    ensures Sum(s) < Sum(t)
  {
    var n := |s| - 1;
    if c == n {
      SumMonotone(s[..n], t[..n]);
    } else {
      SumStrict(s[..n], t[..n], c);
    }
  }

  lemma QuotientStrict(p: real, q: real, d: real)
    requires p < q && d > 0.0
    ensures p / d < q / d
  {
    var x, y := p / d, q / d;
    assert x * d == p && y * d == q;
    assert (y - x) * d == q - p;
    FactorSign(y - x, d);
  }

  /** One class whose average precision rises, and the others without annotations. */
  lemma OneClassRaisesMean(base: seq<seq<Image>>, c: nat, images: seq<Image>, order: seq<nat>, high: real)
    returns (classes: seq<ClassData>)
    requires c < |base| && ValidImages(images) && SameScores(images, base[c])
    requires IsRanking(order, Items(images, |images|))
    requires 0.5 < high <= 1.0 && ClassAp(images, 0.5, order) < ClassAp(images, high, order)
    ensures classes == seq(|base|, d requires 0 <= d < |base| =>
                         if d == c then ClassData(images, order) else BlankClass(base[d]))
    ensures ValidClasses(classes) && SameListings(classes, base)
    ensures MeanAt(classes, 0.5) < MeanAt(classes, high)
  {
    hide ClassAp, BlankClass, Sum, Items, ValidImages, SameScores, IsRanking;
    var n := |base|;
    classes := seq(n, d requires 0 <= d < n => if d == c then ClassData(images, order) else BlankClass(base[d]));
    var lows := seq(n, d requires 0 <= d < n => ClassAp(classes[d].images, 0.5, classes[d].order));
    var highs := seq(n, d requires 0 <= d < n => ClassAp(classes[d].images, high, classes[d].order));
    forall d | 0 <= d < n && d != c ensures lows[d] == highs[d] {
      BlankScoresZero(base[d], 0.5);
      BlankScoresZero(base[d], high);
    }
    SumStrict(lows, highs, c);
    QuotientStrict(Sum(lows), Sum(highs), n as real);
  }

  lemma {:induction false} SumAbove(s: seq<real>, x: real)
    requires |s| > 1 && s[0] == x && forall k :: 0 < k < |s| ==> s[k] > x
    ensures Sum(s) > |s| as real * x
  {
    var n := |s| - 1;
    if n > 1 {
      SumAbove(s[..n], x);
    } else {
      assert s[..1] == [] + [x];
      SumAppends([], x);
    }
  }

  /** When every later threshold gives more, the first headline number is the smallest. */
  lemma FirstTrails(classes: seq<ClassData>)
    requires ValidClasses(classes)
    requires forall high | 0.5 < high <= 1.0 :: MeanAt(classes, 0.5) < MeanAt(classes, high)
    ensures !LeadsMap75(classes) && !LeadsMean(classes)
  {
    hide MeanAt, Sum;
    var results := PerThreshold(classes);
    assert THRESHOLDS[0] == 0.5 && forall h :: 0 < h < |THRESHOLDS| ==> 0.5 < THRESHOLDS[h] <= 1.0;
    SumAbove(results, results[0]);
    QuotientStrict(10.0 * results[0], Sum(results), 10.0);
  }

  lemma TieRaisesHeadline(base: seq<seq<Image>>, c: nat) returns (classes: seq<ClassData>)
    requires c < |base| && ValidImages(base[c]) && !StrictlyScored(base[c])
    ensures ValidClasses(classes) && SameListings(classes, base)
    ensures !LeadsMap75(classes) && !LeadsMean(classes)
  {
    var i, j, k :| 0 <= i < |base[c]| && 0 <= j < k < |base[c][i].scores|
        && base[c][i].scores[j] <= base[c][i].scores[k];
    hide ClassAp, BlankClass, MeanAt, Items, SameScores, IsRanking, LeadsMap75, LeadsMean;
    var images, order := TieRaisesAp(base[c], i, j, k);
    assert ClassAp(images, 0.5, order) < ClassAp(images, 0.75, order);
    classes := OneClassRaisesMean(base, c, images, order, 0.75);
    forall high: real | 0.5 < high <= 1.0 ensures MeanAt(classes, 0.5) < MeanAt(classes, high) {
      var same := OneClassRaisesMean(base, c, images, order, high);
    }
    FirstTrails(classes);
  }

  lemma StrictLeads(base: seq<seq<Image>>, classes: seq<ClassData>)
    requires forall c :: 0 <= c < |base| ==> StrictlyScored(base[c])
    requires ValidClasses(classes) && SameListings(classes, base)
    ensures LeadsMap75(classes) && LeadsMean(classes)
  {
    hide MeanAt, Mean;
    forall c | 0 <= c < |classes| ensures StrictlyScored(classes[c].images) {
      assert StrictlyScored(base[c]) && SameScores(classes[c].images, base[c]);
    }
    HeadlineOrder(classes, PerThreshold(classes));
  }

  /** mAP50 is at least mAP75, and at least the mean over the thresholds, for every annotation set,
      overlap table and ranking, each if and only if every image of every class lists its detections by
      strictly decreasing score. */
  lemma HeadlineIff(base: seq<seq<Image>>)
    requires base != [] && forall c :: 0 <= c < |base| ==> ValidImages(base[c])
    ensures (forall c :: 0 <= c < |base| ==> StrictlyScored(base[c])) <==>
        forall classes | ValidClasses(classes) && SameListings(classes, base) :: LeadsMap75(classes)
    ensures (forall c :: 0 <= c < |base| ==> StrictlyScored(base[c])) <==>
        forall classes | ValidClasses(classes) && SameListings(classes, base) :: LeadsMean(classes)
  {
    hide ValidClasses, SameListings, StrictlyScored, LeadsMap75, LeadsMean, ValidImages;
    if forall c :: 0 <= c < |base| ==> StrictlyScored(base[c]) {
      forall classes | ValidClasses(classes) && SameListings(classes, base)
        ensures LeadsMap75(classes) && LeadsMean(classes)
      {
        StrictLeads(base, classes);
      }
    } else {
      var c :| 0 <= c < |base| && !StrictlyScored(base[c]);
      var classes := TieRaisesHeadline(base, c);
    }
  }
}
