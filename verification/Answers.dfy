// What a query promises, in terms of the points and their squared distances alone.
module Answers {
  import opened Geometry
  import opened MinK
  import opened AnnTree
  import opened Neighbours
  import opened SearchSteps

  /** The reply has m distinct points with their distances, in ascending order, and is filled up with -1 and
      infinite distances. */
  ghost predicate Lists(pts: seq<Point>, q: Point, n: nat, m: nat, k: nat, dd: seq<Key>, nnIdx: seq<int>)
    requires n <= |pts|
  {
    && |dd| == |nnIdx| == k && m <= k
    && (forall i :: 0 <= i < m ==> 0 <= nnIdx[i] < n && dd[i] == Finite(Metric(pts[nnIdx[i]], q)))
    && (forall i, j :: 0 <= i < j < m ==> nnIdx[i] != nnIdx[j] && dd[i].Finite? && dd[j].Finite? && dd[i].v <= dd[j].v)
    && (forall i :: m <= i < k ==> nnIdx[i] == -1 && dd[i] == Infinite)
  }

  /** k nearest neighbours up to the factor: no point that is left out is closer by more than that. */
  ghost predicate KNearest(pts: seq<Point>, q: Point, n: nat, k: nat, factor: real, dd: seq<Key>, nnIdx: seq<int>)
    requires n <= |pts|
  {
    var m := if k <= n then k else n;
    && Lists(pts, q, n, m, k, dd, nnIdx)
    && forall x, i :: 0 <= x < n && x !in nnIdx && 0 <= i < m ==> dd[i].Finite? && dd[i].v <= factor * Metric(pts[x], q)
  }

  /** Some points of those within the radius, with all that are within it by the factor; the reply lists the
      closest of them. */
  ghost predicate InRadius(pts: seq<Point>, q: Point, n: nat, sqRad: real, k: nat, factor: real,
                           counted: set<nat>, count: nat, dd: seq<Key>, nnIdx: seq<int>)
    requires n <= |pts|
  {
    var m := if k <= count then k else count;
    && |counted| == count && Lists(pts, q, n, m, k, dd, nnIdx)
    && (forall x :: x in counted ==> x < n && Metric(pts[x], q) <= sqRad)
    && (forall x: nat :: x < n && factor * Metric(pts[x], q) <= sqRad ==> x in counted)
    && (forall i :: 0 <= i < m ==> nnIdx[i] in counted)
    && forall x, i :: x in counted && x !in nnIdx && 0 <= i < m ==> dd[i].Finite? && dd[i].v <= Metric(pts[x], q)
  }

  /** Of the right dimension. */
  predicate Fits(pts: seq<Point>, q: Point, n: nat) {
    n <= |pts| && forall i: nat :: i < n ==> |pts[i]| == |q|
  }

  lemma MetricOf(pts: seq<Point>, q: Point, n: nat, x: nat)
    requires Fits(pts, q, n) && x < n
    ensures DistOf(pts, q, x) == Metric(pts[x], q) >= 0.0
  {
    DistMetric(pts[x], q);
  }

  lemma RankedLists(pts: seq<Point>, q: Point, n: nat, maxErr: real, ans: seq<Node>, k: nat, dd: seq<Key>, nnIdx: seq<int>)
    requires Fits(pts, q, n) && Ranked(pts, q, n, maxErr, ans) && |ans| <= k && Reports(ans, k, dd, nnIdx)
    ensures Lists(pts, q, n, |ans|, k, dd, nnIdx)
  {
    hide DistOf, Metric, Everyone, Sort, NearEnough;
    forall i: nat | i < |ans| ensures 0 <= nnIdx[i] < n && dd[i] == Finite(Metric(pts[nnIdx[i]], q)) {
      assert ans[i] in ans && nnIdx[i] == ans[i].info;
      MetricOf(pts, q, n, ans[i].info);
    }
    forall i: nat, j: nat | i < j < |ans| ensures nnIdx[i] != nnIdx[j] && dd[i].v <= dd[j].v {
      assert nnIdx[i] == ans[i].info && nnIdx[j] == ans[j].info;
    }
  }

  lemma {:induction false} InLog(log: seq<Node>, x: nat) returns (i: nat)
    requires x in Infos(log)
    ensures i < |log| && log[i].info == x
  {
    if log[|log| - 1].info == x { i := |log| - 1; } else { i := InLog(log[..|log| - 1], x); }
  }

  /** A point that was inserted but is not reported is farther than those that are. */
  lemma NotReported(pts: seq<Point>, q: Point, log: seq<Node>, k: nat, dd: seq<Key>, nnIdx: seq<int>, x: nat, i: nat)
    requires Sound(pts, q, log) && Reports(AnswerOf(k, log), k, dd, nnIdx)
    requires x in Infos(log) && x !in nnIdx && i < |AnswerOf(k, log)|
    ensures AnswerOf(k, log)[i].key <= DistOf(pts, q, x)
  {
    hide DistOf, Infos, Sort;
    SortSorted(log);
    SortInfos(log);
    var j := InLog(Sort(log), x);
    assert Sort(log)[j] in log;
    assert forall i: nat :: i < |AnswerOf(k, log)| ==> nnIdx[i] == Sort(log)[i].info;
  }

  /** What the searches for neighbours know at the end is what they promise. */
  lemma NearestAnswer(pts: seq<Point>, q: Point, n: nat, k: nat, maxErr: real, log: seq<Node>, dd: seq<Key>, nnIdx: seq<int>)
    requires Fits(pts, q, n) && k >= 1 && maxErr >= 1.0 && Progress(Nearest(k), maxErr, pts, q, log, multiset(Identity(n)))
    requires Reports(AnswerOf(k, log), k, dd, nnIdx)
    ensures KNearest(pts, q, n, k, maxErr, dd, nnIdx)
  {
    hide DistOf, Metric, Infos, Everyone, Sort, Sorted, Ranked, Lists;
    var ans, m := AnswerOf(k, log), if k <= n then k else n;
    GoodAnswer(Nearest(k), maxErr, pts, q, n, log, k);
    FullAnswer(maxErr, pts, q, n, log, k);
    RankedLists(pts, q, n, maxErr, ans, k, dd, nnIdx);
    forall x, i: nat | 0 <= x < n && x !in nnIdx && i < m ensures dd[i].v <= maxErr * Metric(pts[x], q) {
      MetricOf(pts, q, n, x);
      IdentityAt(n, x);
      assert x in multiset(Identity(n));
      var d := DistOf(pts, q, x);
      if x in Infos(log) {
        NotReported(pts, q, log, k, dd, nnIdx, x, i);
        assert maxErr * d - d == (maxErr - 1.0) * d >= 0.0;
      } else {
        Missing(Nearest(k), maxErr, log, k, i, d);
      }
    }
  }

  /** A log without repetition has as many points as entries. */
  lemma {:induction false} InfosSet(log: seq<Node>, n: nat) returns (s: set<nat>)
    requires Infos(log) <= multiset(Identity(n))
    ensures |s| == |log| && forall x :: x in s <==> x in Infos(log)
  {
    if log == [] {
      s := {};
    } else {
      var y, l := log[|log| - 1].info, log[..|log| - 1];
      s := InfosSet(l, n);
      IdentityAt(n, y);
      assert Infos(log)[y] <= 1;
      s := s + {y};
    }
  }

  /** What the searches within a radius know at the end is what they promise. */
  lemma RadiusAnswer(pts: seq<Point>, q: Point, n: nat, sqRad: real, k: nat, maxErr: real, log: seq<Node>, dd: seq<Key>, nnIdx: seq<int>)
    returns (counted: set<nat>)
    requires Fits(pts, q, n) && k >= 1 && maxErr >= 1.0 && Progress(Within(sqRad), maxErr, pts, q, log, multiset(Identity(n)))
    requires Reports(AnswerOf(k, log), k, dd, nnIdx)
    ensures InRadius(pts, q, n, sqRad, k, maxErr, counted, |log|, dd, nnIdx)
  {
    hide DistOf, Metric, Infos, Everyone, Sorted, Ranked, Lists, Sort;
    var ans, m := AnswerOf(k, log), if k <= |log| then k else |log|;
    GoodAnswer(Within(sqRad), maxErr, pts, q, n, log, k);
    RankedLists(pts, q, n, maxErr, ans, k, dd, nnIdx);
    counted := InfosSet(log, n);
    forall x: nat | x < n ensures maxErr * Metric(pts[x], q) <= sqRad ==> x in counted {
      MetricOf(pts, q, n, x);
      IdentityAt(n, x);
      assert x in multiset(Identity(n));
    }
    forall x | x in counted ensures x < n && Metric(pts[x], q) <= sqRad {
      IdentityAt(n, x);
      MetricOf(pts, q, n, x);
      var i := InLog(log, x);
      assert log[i] in log;
    }
    forall i: nat | i < m ensures nnIdx[i] in counted {
      SortInfos(log);
      InfosAt(Sort(log), i, i);
    }
    forall x, i: nat | x in counted && x !in nnIdx && i < m ensures dd[i].v <= Metric(pts[x], q) {
      MetricOf(pts, q, n, x);
      NotReported(pts, q, log, k, dd, nnIdx, x, i);
    }
  }
}
