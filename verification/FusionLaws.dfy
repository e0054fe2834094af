/** What fusion produces: the connected components of the pair relation, whatever the order of the
    pool. */
module FusionLaws {
  import opened UnionFind
  import opened Fusion

  // ----- Groups are connected components

  ghost predicate Joined(pool: Pool, seamIou: real, i: nat, j: nat) {
    pool.Valid() && i < |pool.dets| && j < |pool.dets| && Joins(pool, seamIou, i, j)
  }

  /** A walk from i to j along joining pairs. */
  ghost predicate IsPath(pool: Pool, seamIou: real, path: seq<nat>, i: nat, j: nat) {
    && path != [] && path[0] == i && path[|path| - 1] == j
    && forall k {:trigger path[k]} :: 0 < k < |path| ==> Joined(pool, seamIou, path[k - 1], path[k])
  }

  ghost predicate Connected(pool: Pool, seamIou: real, i: nat, j: nat) {
    exists path :: IsPath(pool, seamIou, path, i, j)
  }

  lemma JoinsSymmetric(pool: Pool, seamIou: real, i: nat, j: nat)
    requires pool.Valid() && i < |pool.dets| && j < |pool.dets|
    ensures Joins(pool, seamIou, i, j) == Joins(pool, seamIou, j, i)
  {
    hide Completes;
  }

  lemma ConnectedReflexive(pool: Pool, seamIou: real, i: nat)
    ensures Connected(pool, seamIou, i, i)
  {
    assert IsPath(pool, seamIou, [i], i, i);
  }

  lemma ConnectedSymmetric(pool: Pool, seamIou: real, i: nat, j: nat)
    requires pool.Valid() && Connected(pool, seamIou, i, j)
    ensures Connected(pool, seamIou, j, i)
  {
    hide Joins;
    var path :| IsPath(pool, seamIou, path, i, j);
    var n := |path|;
    var back := seq(n, k requires 0 <= k < n => path[n - 1 - k]);
    forall k | 0 < k < n ensures Joined(pool, seamIou, back[k - 1], back[k]) {
      assert back[k - 1] == path[n - k] && back[k] == path[n - k - 1];
      assert Joined(pool, seamIou, path[n - k - 1], path[n - k]);
      JoinsSymmetric(pool, seamIou, path[n - k - 1], path[n - k]);
    }
    assert IsPath(pool, seamIou, back, j, i);
  }

  lemma ConnectedTransitive(pool: Pool, seamIou: real, i: nat, j: nat, k: nat)
    requires Connected(pool, seamIou, i, j) && Connected(pool, seamIou, j, k)
    ensures Connected(pool, seamIou, i, k)
  {
    hide Joined;
    var p :| IsPath(pool, seamIou, p, i, j);
    var q :| IsPath(pool, seamIou, q, j, k);
    var path := p + q[1..];
    forall t | 0 < t < |path| ensures Joined(pool, seamIou, path[t - 1], path[t]) {
      if t < |p| {
        assert path[t - 1] == p[t - 1] && path[t] == p[t];
      } else {
        assert path[t - 1] == q[t - |p|] && path[t] == q[t - |p| + 1];
      }
    }
    assert IsPath(pool, seamIou, path, i, k);
  }

  ghost predicate Sound(pool: Pool, seamIou: real, root: seq<nat>) {
    && |root| == |pool.dets|
    && forall x, y :: 0 <= x < |root| && 0 <= y < |root| && root[x] == root[y] ==> Connected(pool, seamIou, x, y)
  }

  lemma MergeSound(pool: Pool, seamIou: real, root: seq<nat>, i: nat, j: nat)
    requires pool.Valid() && Sound(pool, seamIou, root) && IsLabelling(root) && i < |root| && j < |root|
    ensures Sound(pool, seamIou, MergeIf(root, Joins(pool, seamIou, i, j), i, j))
  {
    hide Joins, Connected;
    var joined := Joins(pool, seamIou, i, j);
    var root' := MergeIf(root, joined, i, j);
    if joined {
      assert Connected(pool, seamIou, i, j) by {
        OneStep(pool, seamIou, i, j);
      }
      forall x, y | 0 <= x < |root| && 0 <= y < |root| && root'[x] == root'[y] ensures Connected(pool, seamIou, x, y) {
        if root[x] != root[y] {
          var (a, b) := if root[x] == root[i] then (i, j) else (j, i);
          ConnectedSymmetric(pool, seamIou, i, j);
          ConnectedTransitive(pool, seamIou, x, a, b);
          ConnectedTransitive(pool, seamIou, x, b, y);
        }
      }
    }
  }

  lemma OneStep(pool: Pool, seamIou: real, i: nat, j: nat)
    requires Joined(pool, seamIou, i, j)
    ensures Connected(pool, seamIou, i, j)
  {
    assert IsPath(pool, seamIou, [i, j], i, j);
  }

  lemma {:induction false} RowSound(pool: Pool, seamIou: real, root: seq<nat>, i: nat, j: nat)
    requires pool.Valid() && IsLabelling(root) && i < j <= |root| == |pool.dets| && Sound(pool, seamIou, root)
    ensures Sound(pool, seamIou, AfterRow(pool, seamIou, root, i, j))
    decreases j
  {
    hide Joins, Connected, Sound, MergeIf;
    if j > i + 1 {
      RowSound(pool, seamIou, root, i, j - 1);
      MergeSound(pool, seamIou, AfterRow(pool, seamIou, root, i, j - 1), i, j - 1);
    }
  }

  /** One more pair: what shared a root still does, and the pair does if it joins. */
  lemma MergeKeeps(root: seq<nat>, joined: bool, i: nat, j: nat)
    requires IsLabelling(root) && i < |root| && j < |root|
    ensures var root' := MergeIf(root, joined, i, j);
            && (forall x, y :: 0 <= x < |root| && 0 <= y < |root| && root[x] == root[y] ==> root'[x] == root'[y])
            && (joined ==> root'[i] == root'[j])
  {
  }

  /** Merging further pairs never separates two items. */
  lemma {:induction false} RowKeeps(pool: Pool, seamIou: real, root: seq<nat>, i: nat, j: nat, x: nat, y: nat)
    requires pool.Valid() && IsLabelling(root) && i < j <= |root| == |pool.dets|
    requires x < |root| && y < |root| && root[x] == root[y]
    ensures var root' := AfterRow(pool, seamIou, root, i, j); root'[x] == root'[y]
    decreases j
  {
    hide Joins, MergeIf;
    if j > i + 1 {
      RowKeeps(pool, seamIou, root, i, j - 1, x, y);
      MergeKeeps(AfterRow(pool, seamIou, root, i, j - 1), Joins(pool, seamIou, i, j - 1), i, j - 1);
    }
  }

  /** The merged pairs of a row stay together. */
  lemma {:induction false} RowMerges(pool: Pool, seamIou: real, root: seq<nat>, i: nat, j: nat, y: nat)
    requires pool.Valid() && IsLabelling(root) && i < y < j <= |root| == |pool.dets| && Joins(pool, seamIou, i, y)
    ensures var root' := AfterRow(pool, seamIou, root, i, j); root'[i] == root'[y]
    decreases j
  {
    hide Joins, MergeIf;
    var before := AfterRow(pool, seamIou, root, i, j - 1);
    if y < j - 1 {
      RowMerges(pool, seamIou, root, i, j - 1, y);
    }
    MergeKeeps(before, Joins(pool, seamIou, i, j - 1), i, j - 1);
  }

  /** Every joining pair whose first index is below i has been merged. */
  ghost predicate MergedBelow(pool: Pool, seamIou: real, root: seq<nat>, i: nat) {
    && pool.Valid() && |root| == |pool.dets|
    && forall x, y :: 0 <= x < y < |root| && x < i && Joins(pool, seamIou, x, y) ==> root[x] == root[y]
  }

  lemma {:induction false} RowsFacts(pool: Pool, seamIou: real, i: nat)
    requires pool.Valid() && i <= |pool.dets|
    ensures Sound(pool, seamIou, AfterRows(pool, seamIou, i))
        && MergedBelow(pool, seamIou, AfterRows(pool, seamIou, i), i)
  {
    if i == 0 {
      forall x: nat ensures Connected(pool, seamIou, x, x) {
        ConnectedReflexive(pool, seamIou, x);
      }
    } else {
      hide Joins, Connected, AfterRow, Sound;
      var before, n := AfterRows(pool, seamIou, i - 1), |pool.dets|;
      RowsFacts(pool, seamIou, i - 1);
      RowSound(pool, seamIou, before, i - 1, n);
      var after := AfterRow(pool, seamIou, before, i - 1, n);
      forall x, y | 0 <= x < y < n && x < i && Joins(pool, seamIou, x, y) ensures after[x] == after[y] {
        if x < i - 1 {
          RowKeeps(pool, seamIou, before, i - 1, n, x, y);
        } else {
          RowMerges(pool, seamIou, before, i - 1, n, y);
        }
      }
    }
  }

  lemma {:induction false} PathKeepsRoot(pool: Pool, seamIou: real, root: seq<nat>, path: seq<nat>, i: nat, j: nat)
    requires pool.Valid() && |root| == |pool.dets| && i < |root| && IsPath(pool, seamIou, path, i, j)
    requires forall x, y :: 0 <= x < y < |root| && Joins(pool, seamIou, x, y) ==> root[x] == root[y]
    ensures j < |root| && root[i] == root[j]
    decreases |path|
  {
    hide Joins;
    if |path| > 1 {
      var a, b := path[0], path[1];
      assert Joined(pool, seamIou, a, b);
      JoinsSymmetric(pool, seamIou, a, b);
      assert a != b by { NotSelfJoining(pool, seamIou, a); }
      PathKeepsRoot(pool, seamIou, root, path[1..], b, j);
    }
  }

  lemma NotSelfJoining(pool: Pool, seamIou: real, a: nat)
    requires pool.Valid() && a < |pool.dets|
    ensures !Joins(pool, seamIou, a, a)
  {
  }

  /** Two detections end in one group iff a chain of joining pairs connects them. */
  lemma GroupsAreComponents(pool: Pool, seamIou: real, i: nat, j: nat)
    requires pool.Valid() && i < |pool.dets| && j < |pool.dets|
    ensures Roots(pool, seamIou)[i] == Roots(pool, seamIou)[j] <==> Connected(pool, seamIou, i, j)
  {
    hide Joins;
    RowsFacts(pool, seamIou, |pool.dets|);
    if Connected(pool, seamIou, i, j) {
      var path :| IsPath(pool, seamIou, path, i, j);
      PathKeepsRoot(pool, seamIou, Roots(pool, seamIou), path, i, j);
    }
  }
}
