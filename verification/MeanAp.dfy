/** Per-class and mean average precision, and its monotonicity in the IoU threshold. */
module MeanAp {
  import opened Cardinality
  import opened Geometry
  import opened Detections
  import opened Numeric
  import opened AveragePrecision
  import opened DiscreteAp
  import opened Matching

  /** numpy's argsort of the negated scores: any order of non-increasing score. */
  ghost predicate IsRanking(order: seq<nat>, items: seq<Item>) {
    && IsPermutation(order, |items|)
    && forall q, r :: 0 <= q < r < |order| ==> items[order[q]].score >= items[order[r]].score
  }

  ghost function ClassAp(images: seq<Image>, threshold: real, order: seq<nat>): real
    requires ValidImages(images) && IsRanking(order, Items(images, |images|))
  {
    Ap(RankedFlags(Items(images, |images|), threshold, order), Total(images, |images|))
  }

  /** np.cumsum of a list taken in ranking order. */
  method CumulativeSum(counts: seq<nat>, order: seq<nat>) returns (sums: seq<nat>)
    requires Selects(order, |counts|) && forall g :: 0 <= g < |counts| ==> counts[g] <= 1
    ensures |sums| == |order|
    ensures var flags := seq(|order|, r requires 0 <= r < |order| => counts[order[r]] == 1);
            forall r :: 0 <= r < |order| ==> sums[r] == Cum(flags, r + 1)
  {
    ghost var flags := seq(|order|, r requires 0 <= r < |order| => counts[order[r]] == 1);
    sums := [];
    var sum := 0;
    for r := 0 to |order|
      invariant |sums| == r && sum == Cum(flags, r)
      invariant forall q :: 0 <= q < r ==> sums[q] == Cum(flags, q + 1)
    {
      sum := sum + counts[order[r]];
      sums := sums + [sum];
    }
  }

  lemma {:induction false} CumComplement(flags: seq<bool>, other: seq<bool>, k: nat)
    requires |flags| == |other| && k <= |flags|
    requires forall r :: 0 <= r < |flags| ==> other[r] == !flags[r]
    ensures Cum(flags, k) + Cum(other, k) == k
  {
    if k > 0 {
      CumComplement(flags, other, k - 1);
    }
  }

  /** The area computed from the cumulative counts is the discrete maximum form. */
  method AveragePrecisionOf(images: seq<Image>, threshold: real, order: seq<nat>) returns (ap: real)
    requires ValidImages(images) && IsRanking(order, Items(images, |images|))
    ensures ap == ClassAp(images, threshold, order)
  {
    hide IsTrue, EnvelopeArea, Ap;
    var scores, truePositives, falsePositives, annotations := MatchDetections(images, threshold);
    ghost var items := Items(images, |images|);
    ghost var flags := RankedFlags(items, threshold, order);
    if annotations == 0 {
      NoAnnotations(flags);
      return 0.0;
    }
    var n := |order|;
    var tp := CumulativeSum(truePositives, order);
    var fp := CumulativeSum(falsePositives, order);
    ghost var hits := seq(n, r requires 0 <= r < n => truePositives[order[r]] == 1);
    ghost var misses := seq(n, r requires 0 <= r < n => falsePositives[order[r]] == 1);
    assert hits == flags;
    forall r: nat | r < n ensures tp[r] + fp[r] == r + 1 && tp[r] == Cum(flags, r + 1) {
      CumComplement(hits, misses, r + 1);
    }
    hide Items, RankedFlags, Recalls, Precisions;
    var recall := seq(n, r requires 0 <= r < n => tp[r] as real / annotations as real);
    var precision := seq(n, r requires 0 <= r < n => tp[r] as real / Max((tp[r] + fp[r]) as real, EPS));
    CountsGiveRates(flags, annotations, tp, fp, recall, precision);
    ap := ComputeAp(recall, precision);
    ApIsDiscreteMaximum(flags, annotations);
  }

  /** The guard in the precision never acts: every rank counts at least one detection. */
  lemma CountsGiveRates(flags: seq<bool>, annotations: nat, tp: seq<nat>, fp: seq<nat>, recall: seq<real>,
      precision: seq<real>)
    requires annotations > 0 && |tp| == |fp| == |recall| == |precision| == |flags|
    requires forall r :: 0 <= r < |flags| ==> tp[r] + fp[r] == r + 1 && tp[r] == Cum(flags, r + 1)
    requires forall r :: 0 <= r < |flags| ==> recall[r] == tp[r] as real / annotations as real
    requires forall r :: 0 <= r < |flags| ==> precision[r] == tp[r] as real / Max((tp[r] + fp[r]) as real, EPS)
    ensures recall == Recalls(flags, annotations) && precision == Precisions(flags)
  {
    hide Rate, Max, Cum, Recalls, Precisions;
    forall r: nat | r < |flags|
      ensures recall[r] == Cum(flags, r + 1) as real / annotations as real
      ensures precision[r] == Rate(flags, r + 1)
    {
      GuardIsIdle(flags, r, tp[r], fp[r]);
    }
    RatesAre(flags, annotations, recall, precision);
  }

  lemma RatesAre(flags: seq<bool>, annotations: nat, recall: seq<real>, precision: seq<real>)
    requires annotations > 0 && |recall| == |precision| == |flags|
    requires forall r :: 0 <= r < |flags| ==> recall[r] == Cum(flags, r + 1) as real / annotations as real
    requires forall r :: 0 <= r < |flags| ==> precision[r] == Rate(flags, r + 1)
    ensures recall == Recalls(flags, annotations) && precision == Precisions(flags)
  {
    hide Rate, Cum;
  }

  lemma GuardIsIdle(flags: seq<bool>, r: nat, tp: nat, fp: nat)
    requires r < |flags| && tp + fp == r + 1 && tp == Cum(flags, r + 1)
    ensures tp as real / Max((tp + fp) as real, EPS) == Rate(flags, r + 1)
  {
    hide Cum;
    assert Max((tp + fp) as real, EPS) == (r + 1) as real;
  }

  lemma NoAnnotations(flags: seq<bool>)
    ensures Ap(flags, 0) == 0.0
  {
  }

  // ----- Counting matched annotations

  ghost function Target(item: Item): (nat, nat) {
    (item.image, item.annotation)
  }

  /** The annotations matched by the first k ranks. */
  ghost function Matched(items: seq<Item>, threshold: real, order: seq<nat>, k: nat): set<(nat, nat)>
    requires Selects(order, |items|) && k <= |order|
  {
    set r | 0 <= r < k && IsTrue(items, threshold, order[r]) :: Target(items[order[r]])
  }

  /** The annotations that some detection among the first k ranks overlaps enough. */
  ghost function Reached(items: seq<Item>, threshold: real, order: seq<nat>, k: nat): set<(nat, nat)>
    requires Selects(order, |items|) && k <= |order|
  {
    set r | 0 <= r < k && Claims(items[order[r]], threshold) :: Target(items[order[r]])
  }

  lemma TrueOnce(items: seq<Item>, threshold: real, e: nat, g: nat)
    requires e < |items| && g < |items| && e != g && Target(items[e]) == Target(items[g])
    ensures !(IsTrue(items, threshold, e) && IsTrue(items, threshold, g))
  {
  }

  lemma MatchedGrows(items: seq<Item>, threshold: real, order: seq<nat>, k: nat)
    requires Selects(order, |items|) && k < |order|
    ensures Matched(items, threshold, order, k + 1) == Matched(items, threshold, order, k)
        + (if IsTrue(items, threshold, order[k]) then {Target(items[order[k]])} else {})
  {
    hide IsTrue, Target;
  }

  /** A true positive matches an annotation that no other rank matches. */
  lemma MatchIsNew(items: seq<Item>, threshold: real, order: seq<nat>, k: nat)
    requires Selects(order, |items|) && Distinct(order) && k < |order| && IsTrue(items, threshold, order[k])
    ensures Target(items[order[k]]) !in Matched(items, threshold, order, k)
  {
    hide IsTrue, Target;
    if r :| 0 <= r < k && IsTrue(items, threshold, order[r]) && Target(items[order[r]]) == Target(items[order[k]]) {
      TrueOnce(items, threshold, order[r], order[k]);
    }
  }

  /** Each annotation is matched at most once: counting true positives counts annotations. */
  lemma {:induction false} CumCountsMatched(items: seq<Item>, threshold: real, order: seq<nat>, k: nat)
    requires Selects(order, |items|) && Distinct(order) && k <= |order|
    ensures Cum(RankedFlags(items, threshold, order), k) == |Matched(items, threshold, order, k)|
  {
    hide IsTrue, Matched, Target;
    if k == 0 {
      NoneMatched(items, threshold, order);
    } else {
      CumCountsMatched(items, threshold, order, k - 1);
      MatchedGrows(items, threshold, order, k - 1);
      if IsTrue(items, threshold, order[k - 1]) {
        MatchIsNew(items, threshold, order, k - 1);
      }
    }
  }

  lemma NoneMatched(items: seq<Item>, threshold: real, order: seq<nat>)
    requires Selects(order, |items|)
    ensures Matched(items, threshold, order, 0) == {}
  {
  }

  ghost function Targets(images: seq<Image>, n: nat): set<(nat, nat)>
    requires n <= |images|
  {
    set i, a | 0 <= i < n && 0 <= a < images[i].annotations :: (i, a)
  }

  ghost function Row(i: nat, annotations: nat): set<(nat, nat)> {
    set a | 0 <= a < annotations :: (i, a)
  }

  lemma {:induction false} RowSize(i: nat, annotations: nat)
    ensures |Row(i, annotations)| == annotations
  {
    if annotations > 0 {
      RowSize(i, annotations - 1);
      assert Row(i, annotations) == Row(i, annotations - 1) + {(i, annotations - 1)};
    } else {
      assert Row(i, 0) == {};
    }
  }

  lemma {:induction false} TargetsSize(images: seq<Image>, n: nat)
    requires n <= |images|
    ensures |Targets(images, n)| == Total(images, n)
  {
    if n > 0 {
      TargetsSize(images, n - 1);
      RowSize(n - 1, images[n - 1].annotations);
      assert Targets(images, n) == Targets(images, n - 1) + Row(n - 1, images[n - 1].annotations);
    } else {
      assert Targets(images, 0) == {};
    }
  }

  lemma {:induction false} ItemsHaveTargets(images: seq<Image>, n: nat)
    requires ValidImages(images) && n <= |images|
    ensures forall g :: 0 <= g < |Items(images, n)| && Items(images, n)[g].matchable ==>
        Target(Items(images, n)[g]) in Targets(images, n)
  {
    hide ItemOf;
    if n > 0 {
      ItemsHaveTargets(images, n - 1);
      var image, items := images[n - 1], Items(images, n);
      var from := |Items(images, n - 1)|;
      forall g | from <= g < |items| && items[g].matchable ensures Target(items[g]) in Targets(images, n) {
        ItemFields(image, n - 1, g - from);
      }
    }
  }

  /** Average precision lies in [0, 1], whatever the overlaps and however ties are ordered. */
  lemma ClassApInUnitInterval(images: seq<Image>, threshold: real, order: seq<nat>)
    requires ValidImages(images) && IsRanking(order, Items(images, |images|))
    ensures 0.0 <= ClassAp(images, threshold, order) <= 1.0
  {
    hide Ap;
    var items := Items(images, |images|);
    CumCountsMatched(items, threshold, order, |order|);
    ItemsHaveTargets(images, |images|);
    TargetsSize(images, |images|);
    SubsetSize(Matched(items, threshold, order, |order|), Targets(images, |images|));
    ApInUnitInterval(RankedFlags(items, threshold, order), Total(images, |images|));
  }

  // ----- Monotonicity in the threshold

  /** The ranking keeps each image's detections in their list order. */
  ghost predicate KeepsListOrder(items: seq<Item>, order: seq<nat>)
    requires Selects(order, |items|)
  {
    forall q, r | 0 <= q < |order| && 0 <= r < |order| ::
      order[q] < order[r] && items[order[q]].image == items[order[r]].image ==> q < r
  }

  /** Each image lists its detections by strictly decreasing score. */
  ghost predicate StrictlyScored(images: seq<Image>) {
    forall i :: 0 <= i < |images| ==> forall j, k :: 0 <= j < k < |images[i].scores| ==>
        images[i].scores[j] > images[i].scores[k]
  }

  lemma {:induction false} ItemsStrictlyScored(images: seq<Image>, n: nat, e: nat, g: nat)
    requires ValidImages(images) && StrictlyScored(images) && n <= |images|
    requires e < g < |Items(images, n)| && Items(images, n)[e].image == Items(images, n)[g].image
    ensures Items(images, n)[e].score > Items(images, n)[g].score
  {
    if n > 0 {
      var from := |Items(images, n - 1)|;
      EarlierImages(images, n - 1);
      if g < from {
        ItemsStrictlyScored(images, n - 1, e, g);
      } else {
        assert Items(images, n)[g] == ImageItems(images[n - 1], n - 1)[g - from];
        assert e >= from;
        assert Items(images, n)[e] == ImageItems(images[n - 1], n - 1)[e - from];
      }
    }
  }

  /** Without equal scores inside an image every ranking keeps the list order. */
  lemma DistinctScoresKeepListOrder(images: seq<Image>, order: seq<nat>)
    requires ValidImages(images) && StrictlyScored(images) && IsRanking(order, Items(images, |images|))
    ensures KeepsListOrder(Items(images, |images|), order)
  {
    hide Items, StrictlyScored, ValidImages;
    var items := Items(images, |images|);
    forall q, r | 0 <= q < |order| && 0 <= r < |order| && order[q] < order[r]
        && items[order[q]].image == items[order[r]].image ensures q < r {
      ItemsStrictlyScored(images, |images|, order[q], order[r]);
    }
  }

  /** In list order, an annotation is matched at rank k iff it has been reached by rank k. */
  lemma MatchedIsReached(items: seq<Item>, threshold: real, order: seq<nat>, k: nat)
    requires IsPermutation(order, |items|) && KeepsListOrder(items, order) && k <= |order|
    ensures Matched(items, threshold, order, k) == Reached(items, threshold, order, k)
  {
    forall r: nat | r < k && Claims(items[order[r]], threshold)
      ensures Target(items[order[r]]) in Matched(items, threshold, order, k)
    {
      var e := FirstClaim(items, threshold, order[r]);
      assert e in order;
      var q :| 0 <= q < |order| && order[q] == e;
      assert q <= r;
    }
  }

  lemma {:induction false} FirstClaim(items: seq<Item>, threshold: real, g: nat) returns (e: nat)
    requires g < |items| && Claims(items[g], threshold)
    ensures e <= g && IsTrue(items, threshold, e) && SameTarget(items[e], items[g])
    decreases g
  {
    e := g;
    if !IsTrue(items, threshold, g) {
      var earlier :| 0 <= earlier < g && Claims(items[earlier], threshold) && SameTarget(items[earlier], items[g]);
      e := FirstClaim(items, threshold, earlier);
    }
  }

  /** A higher IoU threshold never raises the average precision of a class, whenever the ranking
      keeps each image's list order. */
  lemma ApFallsWithThreshold(images: seq<Image>, low: real, high: real, order: seq<nat>)
    requires ValidImages(images) && IsRanking(order, Items(images, |images|)) && low <= high
    requires KeepsListOrder(Items(images, |images|), order)
    ensures ClassAp(images, low, order) >= ClassAp(images, high, order)
  {
    hide Ap, KeepsListOrder;
    var items := Items(images, |images|);
    forall k: nat | k <= |order|
      ensures Cum(RankedFlags(items, high, order), k) <= Cum(RankedFlags(items, low, order), k)
    {
      CumCountsMatched(items, low, order, k);
      CumCountsMatched(items, high, order, k);
      MatchedIsReached(items, low, order, k);
      MatchedIsReached(items, high, order, k);
      SubsetSize(Reached(items, high, order, k), Reached(items, low, order, k));
    }
    ApMonotone(RankedFlags(items, high, order), RankedFlags(items, low, order), Total(images, |images|));
  }

  // ----- evaluate and summarise

  /** All images of one class with the order their pooled scores sort into. */
  datatype ClassData = ClassData(images: seq<Image>, order: seq<nat>) {
    ghost predicate Valid() {
      ValidImages(images) && IsRanking(order, Items(images, |images|))
    }
  }

  const THRESHOLDS: seq<real> := [0.50, 0.55, 0.60, 0.65, 0.70, 0.75, 0.80, 0.85, 0.90, 0.95]

  ghost predicate ValidClasses(classes: seq<ClassData>) {
    classes != [] && forall c :: 0 <= c < |classes| ==> classes[c].Valid()
  }

  function Mean(s: seq<real>): real
    requires s != []
  {
    Sum(s) / |s| as real
  }

  ghost function MeanAt(classes: seq<ClassData>, threshold: real): real
    requires ValidClasses(classes)
  {
    Mean(seq(|classes|, c requires 0 <= c < |classes| => ClassAp(classes[c].images, threshold, classes[c].order)))
  }

  /** One class's average precision at each of the first h thresholds. */
  ghost function ClassAps(data: ClassData, h: nat): (aps: seq<real>)
    requires data.Valid() && h <= |THRESHOLDS|
    ensures |aps| == h
  {
    seq(h, g requires 0 <= g < h => ClassAp(data.images, THRESHOLDS[g], data.order))
  }

  /** Every class's average precision at one threshold. */
  method ApPerClass(classes: seq<ClassData>, threshold: real) returns (aps: seq<real>)
    requires ValidClasses(classes)
    ensures |aps| == |classes| && Mean(aps) == MeanAt(classes, threshold)
    ensures forall c :: 0 <= c < |classes| ==> aps[c] == ClassAp(classes[c].images, threshold, classes[c].order)
  {
    hide ClassAp, Mean;
    aps := [];
    for c := 0 to |classes|
      invariant |aps| == c
      invariant forall d :: 0 <= d < c ==> aps[d] == ClassAp(classes[d].images, threshold, classes[d].order)
    {
      var ap := AveragePrecisionOf(classes[c].images, threshold, classes[c].order);
      aps := aps + [ap];
    }
    assert aps == seq(|classes|,
        c requires 0 <= c < |classes| => ClassAp(classes[c].images, threshold, classes[c].order));
  }

  /** The mean over classes at each threshold, in increasing order of threshold, and the mean over
      the thresholds for each class, which the source adds up one threshold at a time. */
  method Evaluate(classes: seq<ClassData>) returns (perThreshold: seq<real>, perClass: seq<real>)
    requires ValidClasses(classes)
    ensures |perThreshold| == |THRESHOLDS| && |perClass| == |classes|
    ensures forall h :: 0 <= h < |THRESHOLDS| ==> perThreshold[h] == MeanAt(classes, THRESHOLDS[h])
    ensures forall c :: 0 <= c < |classes| ==> perClass[c] == Mean(ClassAps(classes[c], |THRESHOLDS|))
  {
    hide ClassAp, MeanAt, ClassAps, Mean, Sum;
    forall c | 0 <= c < |classes| ensures Sum(ClassAps(classes[c], 0)) / 10.0 == 0.0 {
      NoThresholds(classes[c]);
    }
    perThreshold, perClass := [], seq(|classes|, _ => 0.0);
    for h := 0 to |THRESHOLDS|
      invariant |perThreshold| == h && |perClass| == |classes|
      invariant forall g :: 0 <= g < h ==> perThreshold[g] == MeanAt(classes, THRESHOLDS[g])
      invariant forall c :: 0 <= c < |classes| ==> perClass[c] == Sum(ClassAps(classes[c], h)) / 10.0
    {
      var aps := ApPerClass(classes, THRESHOLDS[h]);
      forall c | 0 <= c < |classes|
        ensures perClass[c] + aps[c] / 10.0 == Sum(ClassAps(classes[c], h + 1)) / 10.0
      {
        AddsThreshold(classes[c], h, aps[c]);
      }
      perThreshold := perThreshold + [Mean(aps)];
      perClass := seq(|classes|, c requires 0 <= c < |classes| => perClass[c] + aps[c] / 10.0);
    }
    forall c | 0 <= c < |classes| ensures perClass[c] == Mean(ClassAps(classes[c], |THRESHOLDS|)) {
      AllThresholds(classes[c]);
    }
  }

  lemma NoThresholds(data: ClassData)
    requires data.Valid()
    ensures Sum(ClassAps(data, 0)) / 10.0 == 0.0
  {
    assert ClassAps(data, 0) == [];
  }

  lemma AddsThreshold(data: ClassData, h: nat, ap: real)
    requires data.Valid() && h < |THRESHOLDS| && ap == ClassAp(data.images, THRESHOLDS[h], data.order)
    ensures Sum(ClassAps(data, h)) / 10.0 + ap / 10.0 == Sum(ClassAps(data, h + 1)) / 10.0
  {
    hide ClassAp;
    assert ClassAps(data, h + 1) == ClassAps(data, h) + [ap];
    SumAppends(ClassAps(data, h), ap);
  }

  lemma AllThresholds(data: ClassData)
    requires data.Valid()
    ensures Mean(ClassAps(data, |THRESHOLDS|)) == Sum(ClassAps(data, |THRESHOLDS|)) / 10.0
  {
    hide Sum, ClassAp;
  }

  lemma SumAppends(s: seq<real>, x: real)
    ensures Sum(s + [x]) == Sum(s) + x
  {
    assert (s + [x])[..|s|] == s;
  }

  // ----- Adding up by rows or by columns

  ghost predicate IsTable(table: seq<seq<real>>, n: nat) {
    forall h :: 0 <= h < |table| ==> |table[h]| == n
  }

  ghost function RowSums(table: seq<seq<real>>): seq<real> {
    seq(|table|, h requires 0 <= h < |table| => Sum(table[h]))
  }

  ghost function Column(table: seq<seq<real>>, n: nat, c: nat): seq<real>
    requires IsTable(table, n) && c < n
  {
    seq(|table|, h requires 0 <= h < |table| => table[h][c])
  }

  ghost function ColumnSums(table: seq<seq<real>>, n: nat): seq<real>
    requires IsTable(table, n)
  {
    seq(n, c requires 0 <= c < n => Sum(Column(table, n, c)))
  }

  lemma {:induction false} SumPointwise(a: seq<real>, b: seq<real>, both: seq<real>)
    requires |a| == |b| == |both| && forall k :: 0 <= k < |both| ==> both[k] == a[k] + b[k]
    ensures Sum(both) == Sum(a) + Sum(b)
  {
    if both != [] {
      var n := |both| - 1;
      SumPointwise(a[..n], b[..n], both[..n]);
    }
  }

  lemma {:induction false} SumZeros(s: seq<real>)
    requires forall k :: 0 <= k < |s| ==> s[k] == 0.0
    ensures Sum(s) == 0.0
  {
    if s != [] {
      SumZeros(s[..|s| - 1]);
    }
  }

  lemma {:induction false} RowsOrColumns(table: seq<seq<real>>, n: nat)
    requires IsTable(table, n)
    ensures Sum(RowSums(table)) == Sum(ColumnSums(table, n))
  {
    if table == [] {
      SumZeros(ColumnSums(table, n));
    } else {
      var last := |table| - 1;
      var rest := table[..last];
      RowsOrColumns(rest, n);
      assert RowSums(table) == RowSums(rest) + [Sum(table[last])];
      SumAppends(RowSums(rest), Sum(table[last]));
      forall c: nat | c < n ensures ColumnSums(table, n)[c] == ColumnSums(rest, n)[c] + table[last][c] {
        assert Column(table, n, c) == Column(rest, n, c) + [table[last][c]];
        SumAppends(Column(rest, n, c), table[last][c]);
      }
      SumPointwise(ColumnSums(rest, n), table[last], ColumnSums(table, n));
    }
  }

  lemma {:induction false} SumScales(s: seq<real>, d: real, scaled: seq<real>)
    requires d > 0.0 && |s| == |scaled| && forall k :: 0 <= k < |s| ==> scaled[k] == s[k] / d
    ensures Sum(scaled) == Sum(s) / d
  {
    if s != [] {
      var n := |s| - 1;
      SumScales(s[..n], d, scaled[..n]);
    } else {
      DivisionUnique(0.0, d, 0.0);
    }
  }

  /** The mean over thresholds of the class means is the mean over classes of the threshold means:
      both results of the evaluation agree on the headline number. */
  lemma MeansAgree(classes: seq<ClassData>, perThreshold: seq<real>, perClass: seq<real>)
    requires ValidClasses(classes) && |perThreshold| == |THRESHOLDS| && |perClass| == |classes|
    requires forall h :: 0 <= h < |THRESHOLDS| ==> perThreshold[h] == MeanAt(classes, THRESHOLDS[h])
    requires forall c :: 0 <= c < |classes| ==> perClass[c] == Mean(ClassAps(classes[c], |THRESHOLDS|))
    ensures Mean(perThreshold) == Mean(perClass)
  {
    hide ClassAp, Sum;
    var m, n := |THRESHOLDS|, |classes|;
    var table := seq(m, h requires 0 <= h < m => seq(n, c requires 0 <= c < n =>
        ClassAp(classes[c].images, THRESHOLDS[h], classes[c].order)));
    forall c: nat | c < n ensures perClass[c] == ColumnSums(table, n)[c] / 10.0 {
      assert Column(table, n, c) == ClassAps(classes[c], m);
    }
    forall h: nat | h < m ensures perThreshold[h] == RowSums(table)[h] / n as real {
    }
    RowsOrColumns(table, n);
    SumScales(RowSums(table), n as real, perThreshold);
    SumScales(ColumnSums(table, n), 10.0, perClass);
    SwapDivisors(Sum(RowSums(table)), n as real);
  }

  lemma SwapDivisors(total: real, n: real)
    requires n > 0.0
    ensures total / n / 10.0 == total / 10.0 / n
  {
    var q := total / n;
    assert q * n == total;
    DivisionUnique(total / 10.0, n, q / 10.0);
  }

  datatype Headline = Headline(map50: real, map75: real, mean: real)

  function Summarise(perThreshold: seq<real>): Headline
    requires |perThreshold| == |THRESHOLDS|
  {
    Headline(perThreshold[0], perThreshold[5], Mean(perThreshold))
  }

  /** The thresholds run from 0.50 to 0.95 in steps of 0.05. */
  lemma ThresholdsEvenlySpaced(h: nat)
    requires h < |THRESHOLDS|
    ensures |THRESHOLDS| == 10 && THRESHOLDS[h] == 0.5 + h as real * 0.05
  {
    assert h == 0 || h == 1 || h == 2 || h == 3 || h == 4 || h == 5 || h == 6 || h == 7 || h == 8 || h == 9;
  }

  /** The headline numbers are the results at 0.50 and at 0.75 and ten thresholds' mean. */
  lemma SummaryReads(classes: seq<ClassData>, perThreshold: seq<real>)
    requires ValidClasses(classes) && |perThreshold| == |THRESHOLDS|
    requires forall h :: 0 <= h < |THRESHOLDS| ==> perThreshold[h] == MeanAt(classes, THRESHOLDS[h])
    ensures var summary := Summarise(perThreshold);
            && summary.map50 == MeanAt(classes, 0.5) && summary.map75 == MeanAt(classes, 0.75)
            && summary.mean * 10.0 == Sum(perThreshold)
  {
    hide MeanAt, Sum;
    ThresholdsEvenlySpaced(0);
    ThresholdsEvenlySpaced(5);
  }

  lemma {:induction false} SumMonotone(s: seq<real>, t: seq<real>)
    requires |s| == |t| && forall k :: 0 <= k < |s| ==> s[k] <= t[k]
    ensures Sum(s) <= Sum(t)
  {
    if s != [] {
      SumMonotone(s[..|s| - 1], t[..|t| - 1]);
    }
  }

  lemma {:induction false} SumBounded(s: seq<real>, top: real)
    requires forall k :: 0 <= k < |s| ==> s[k] <= top
    ensures Sum(s) <= |s| as real * top
  {
    if s != [] {
      SumBounded(s[..|s| - 1], top);
    }
  }

  lemma MeanAtFalls(classes: seq<ClassData>, low: real, high: real)
    requires ValidClasses(classes) && low <= high
    requires forall c :: 0 <= c < |classes| ==>
        KeepsListOrder(Items(classes[c].images, |classes[c].images|), classes[c].order)
    ensures MeanAt(classes, low) >= MeanAt(classes, high)
  {
    hide ClassAp, KeepsListOrder;
    var n := |classes|;
    var lows := seq(n, c requires 0 <= c < n => ClassAp(classes[c].images, low, classes[c].order));
    var highs := seq(n, c requires 0 <= c < n => ClassAp(classes[c].images, high, classes[c].order));
    forall c | 0 <= c < n ensures highs[c] <= lows[c] {
      ApFallsWithThreshold(classes[c].images, low, high, classes[c].order);
    }
    SumMonotone(highs, lows);
    QuotientMonotone(Sum(highs), Sum(lows), n as real);
  }

  /** mAP50 is at least mAP75 and at least the mean over all thresholds. */
  lemma HeadlineOrder(classes: seq<ClassData>, perThreshold: seq<real>)
    requires ValidClasses(classes)
    requires forall c :: 0 <= c < |classes| ==> StrictlyScored(classes[c].images)
    requires |perThreshold| == |THRESHOLDS|
    requires forall h :: 0 <= h < |THRESHOLDS| ==> perThreshold[h] == MeanAt(classes, THRESHOLDS[h])
    ensures var summary := Summarise(perThreshold); summary.map50 >= summary.map75 && summary.map50 >= summary.mean
  {
    hide MeanAt, Sum, StrictlyScored;
    forall c | 0 <= c < |classes|
        ensures KeepsListOrder(Items(classes[c].images, |classes[c].images|), classes[c].order) {
      DistinctScoresKeepListOrder(classes[c].images, classes[c].order);
    }
    forall h | 0 <= h < |THRESHOLDS| ensures perThreshold[h] <= perThreshold[0] {
      MeanAtFalls(classes, THRESHOLDS[0], THRESHOLDS[h]);
    }
    SumBounded(perThreshold, perThreshold[0]);
    QuotientMonotone(Sum(perThreshold), 10.0 * perThreshold[0], 10.0);
  }
}
