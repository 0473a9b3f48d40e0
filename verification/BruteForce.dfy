// The linear scan (brute.cpp) that the trees are measured against.
module BruteForce {
  import opened Geometry
  import opened MinK
  import opened Neighbours
  import opened SearchSteps
  import opened AnnTree
  import opened Answers

  /** A query's reply; the source aborts when asked for more neighbours than there are points. */
  datatype Reply = Refused | Found(dd: seq<Key>, nnIdx: seq<int>)

  /** The points within a squared radius, in order. */
  function NearBy(pts: seq<Point>, q: Point, n: nat, sqRad: real): seq<Node> {
    if n == 0 then []
    else
      var d := DistOf(pts, q, n - 1);
      NearBy(pts, q, n - 1, sqRad) + if d <= sqRad then [Node(d, n - 1)] else []
  }

  lemma {:induction false} NearByCount(pts: seq<Point>, q: Point, n: nat, sqRad: real)
    ensures |NearBy(pts, q, n, sqRad)| == CountLe(Everyone(pts, q, n), sqRad)
  {
    hide DistOf;
    if n > 0 {
      NearByCount(pts, q, n - 1, sqRad);
      assert Everyone(pts, q, n)[..n - 1] == Everyone(pts, q, n - 1);
    }
  }

  /** ANNbruteForce::annkSearch */
  method BruteSearch(pts: seq<Point>, nPts: nat, dim: nat, q: Point, k: nat) returns (r: Reply)
    requires nPts <= |pts| && |q| == dim && k >= 1 && forall i: nat :: i < |pts| ==> |pts[i]| == dim
    ensures r == Refused <==> k > nPts
    ensures r.Found? ==> KNearest(pts, q, nPts, k, 1.0, r.dd, r.nnIdx)
    ensures r.Found? ==> Reports(AnswerOf(k, Everyone(pts, q, nPts)), k, r.dd, r.nnIdx)
  {
    hide KNearest, Progress, Dist, DistOf, ANNmin_k.Contents, Sort;
    var mk := new ANNmin_k(k);
    if k > nPts { return Refused; }
    for i := 0 to nPts
      invariant mk.Valid() && mk.log == Everyone(pts, q, i) && fresh(mk) && fresh(mk.mk)
    {
      DistIs(pts, q, i);
      var sqDist := AnnDist(pts[i], q);
      mk.Add(sqDist, i);
    }
    var dd, nnIdx := Extract(mk);
    r := Found(dd, nnIdx);
    EveryoneProgress(k, pts, q, nPts);
    NearestAnswer(pts, q, nPts, k, 1.0, mk.log, dd, nnIdx);
  }

  /** ANNbruteForce::annkFRSearch */
  method BruteRange(pts: seq<Point>, nPts: nat, dim: nat, q: Point, sqRad: real, k: nat) returns (ptsInRange: nat, dd: seq<Key>, nnIdx: seq<int>)
    requires nPts <= |pts| && |q| == dim && k >= 1 && forall i: nat :: i < |pts| ==> |pts[i]| == dim
    ensures ptsInRange == CountLe(Everyone(pts, q, nPts), sqRad)
    ensures Reports(AnswerOf(k, NearBy(pts, q, nPts, sqRad)), k, dd, nnIdx)
    ensures exists counted :: InRadius(pts, q, nPts, sqRad, k, 1.0, counted, ptsInRange, dd, nnIdx)
  {
    hide InRadius, Progress, Dist, DistOf, ANNmin_k.Contents, Sort, Everyone, CountLe;
    var mk := new ANNmin_k(k);
    ptsInRange := 0;
    for i := 0 to nPts
      invariant mk.Valid() && mk.log == NearBy(pts, q, i, sqRad) && |mk.log| == ptsInRange && fresh(mk) && fresh(mk.mk)
    {
      DistIs(pts, q, i);
      var sqDist := AnnDist(pts[i], q);
      if sqDist <= sqRad {
        mk.Add(sqDist, i);
        ptsInRange := ptsInRange + 1;
      } else {
        assert mk.log + [] == mk.log;
      }
    }
    NearByCount(pts, q, nPts, sqRad);
    dd, nnIdx := Extract(mk);
    ScanProgress(pts, q, nPts, sqRad);
    ghost var counted := RadiusAnswer(pts, q, nPts, sqRad, k, 1.0, mk.log, dd, nnIdx);
  }

  /** The scan within a radius is an answer to the query in the sense that the searches are. */
  lemma {:induction false} ScanProgress(pts: seq<Point>, q: Point, n: nat, sqRad: real)
    ensures Progress(Within(sqRad), 1.0, pts, q, NearBy(pts, q, n, sqRad), multiset(Identity(n)))
  {
    hide DistOf, Progress;
    if n == 0 {
      NoProgress(Within(sqRad), 1.0, pts, q);
      assert Identity(0) == [];
    } else {
      var log, d := NearBy(pts, q, n - 1, sqRad), DistOf(pts, q, n - 1);
      ScanProgress(pts, q, n - 1, sqRad);
      assert Identity(n) == Identity(n - 1) + [n - 1];
      if d <= sqRad {
        Inserted(Within(sqRad), 1.0, pts, q, log, multiset(Identity(n - 1)), n - 1);
      } else {
        assert log + [] == log;
        PassedOver(Within(sqRad), 1.0, pts, q, log, multiset(Identity(n - 1)), multiset{n - 1});
      }
    }
  }

  /** Two good answers with the same number of points and no error allowance report the same distances. */
  lemma SameReport(pts: seq<Point>, q: Point, n: nat, k: nat, ans: seq<Node>, ans': seq<Node>, dd: seq<Key>)
    requires Ranked(pts, q, n, 1.0, ans) && Distances(ans, k, dd)
    requires Ranked(pts, q, n, 1.0, ans') && |ans'| == |ans|
    ensures Distances(ans', k, dd)
  {
    hide Ranked;
    ExactRanks(pts, q, n, ans);
    ExactRanks(pts, q, n, ans');
  }

  lemma {:induction false} EveryoneProgress(k: nat, pts: seq<Point>, q: Point, n: nat)
    ensures Progress(Nearest(k), 1.0, pts, q, Everyone(pts, q, n), multiset(Identity(n)))
  {
    hide DistOf, Progress;
    if n == 0 {
      NoProgress(Nearest(k), 1.0, pts, q);
      assert Identity(0) == [];
    } else {
      EveryoneProgress(k, pts, q, n - 1);
      assert Identity(n) == Identity(n - 1) + [n - 1];
      Inserted(Nearest(k), 1.0, pts, q, Everyone(pts, q, n - 1), multiset(Identity(n - 1)), n - 1);
    }
  }

  /** Without an error allowance a search replies with the distances of brute force. */
  lemma ExactSearch(pts: seq<Point>, q: Point, n: nat, k: nat, ans: seq<Node>, dd: seq<Key>)
    requires Ranked(pts, q, n, 1.0, ans) && |ans| == (if k <= n then k else n) && Distances(ans, k, dd)
    ensures Distances(AnswerOf(k, Everyone(pts, q, n)), k, dd)
  {
    hide Ranked, Progress, AnswerOf, Everyone, Distances;
    EveryoneProgress(k, pts, q, n);
    GoodAnswer(Nearest(k), 1.0, pts, q, n, Everyone(pts, q, n), k);
    FullAnswer(1.0, pts, q, n, Everyone(pts, q, n), k);
    SameReport(pts, q, n, k, ans, AnswerOf(k, Everyone(pts, q, n)), dd);
  }

  /** So does a search within a radius. */
  lemma ExactRange(pts: seq<Point>, q: Point, n: nat, k: nat, sqRad: real, ans: seq<Node>, dd: seq<Key>)
    requires Ranked(pts, q, n, 1.0, ans) && Distances(ans, k, dd)
    requires |ans| == (var c := CountLe(Everyone(pts, q, n), sqRad); if k <= c then k else c)
    ensures Distances(AnswerOf(k, NearBy(pts, q, n, sqRad)), k, dd)
  {
    hide Ranked, Progress, Everyone, Distances, CountLe, NearBy;
    ScanProgress(pts, q, n, sqRad);
    NearByCount(pts, q, n, sqRad);
    GoodAnswer(Within(sqRad), 1.0, pts, q, n, NearBy(pts, q, n, sqRad), k);
    SameReport(pts, q, n, k, ans, AnswerOf(k, NearBy(pts, q, n, sqRad)), dd);
  }
}
