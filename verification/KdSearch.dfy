// Depth-first search, for the k nearest neighbours (kd_search.cpp, bd_search.cpp) and for the points within a
// radius (kd_fix_rad_search.cpp, bd_fix_rad_search.cpp).  The two walk the tree in the same way; they differ
// in when a cell or a point is too far.
module KdSearch {
  import opened Geometry
  import opened PointSplit
  import opened KdTree
  import opened MinK
  import opened Neighbours
  import opened SearchSteps
  import opened AnnTree
  import opened BruteForce
  import opened Answers

  /** The variables that the recursive calls of one search share. */
  class Searcher {
    const goal: Goal
    const dim: nat
    const q: Point
    const maxErr: real
    const pts: seq<Point>
    const pidx: array<nat>
    const mk: ANNmin_k
    /** The number of insertions, which the search within a radius counts. */
    var inRange: nat
    /** The tree is a kd-tree. */
    ghost const plain: bool
    /** The points of the subtrees dealt with so far. */
    ghost var visited: multiset<nat>

    ghost predicate Ready()
      reads this, mk, mk.mk, pidx
    {
      && mk.Valid() && |q| == dim >= 1 && maxErr >= 1.0 && Fit(pts, pidx[..], dim)
      && (goal.Nearest? ==> goal.k == mk.k) && (goal.Within? ==> inRange == |mk.log|)
      && Progress(goal, maxErr, pts, q, mk.log, visited)
    }

    /** How far a point may be: as far as the k-th so far, or as the radius allows. */
    function Bound(): (b: Key)
      reads this, mk, mk.mk
      requires mk.Valid()
    {
      match goal
      case Nearest(_) => mk.MaxKey()
      case Within(r) => Finite(r)
    }

    /** Is a cell close enough to be searched? */
    predicate Close(boxDist: real)
      reads this, mk, mk.mk
      requires mk.Valid()
    {
      match goal
      case Nearest(_) => mk.MaxKey().Above(boxDist * maxErr)
      case Within(r) => boxDist * maxErr <= r
    }

    /** t is a subtree with this cell, and boxDist is the distance of the cell; in a bd-tree it may be less. */
    ghost predicate Cell(t: Tree, boxDist: real, box: Rect, off: nat)
      reads pidx
    {
      && |q| == dim && Built(t, pts, pidx[..], dim, box, off)
      && IsBox(box, dim) && boxDist <= BoxDist(q, box) && (plain ==> Plain(t) && boxDist == BoxDist(q, box))
    }

    constructor (goal: Goal, dim: nat, q: Point, maxErr: real, pts: seq<Point>, pidx: array<nat>, k: nat, ghost plain: bool)
      requires |q| == dim >= 1 && maxErr >= 1.0 && Fit(pts, pidx[..], dim) && k >= 1 && (goal.Nearest? ==> goal.k == k)
      ensures Ready() && fresh(mk) && fresh(mk.mk) && mk.k == k && visited == multiset{}
      ensures this.goal == goal && this.dim == dim && this.q == q && this.maxErr == maxErr && this.pts == pts && this.pidx == pidx && this.plain == plain
    {
      this.dim, this.q, this.maxErr, this.pts, this.pidx := dim, q, maxErr, pts, pidx;
      mk := new ANNmin_k(k);
      this.goal, this.plain, inRange := goal, plain, 0;
      visited := multiset{};
      new;
      NoProgress(goal, maxErr, pts, q);
    }

    /** ann_search, by the kind of node. */
    method Search(t: Tree, boxDist: real, ghost box: Rect, ghost off: nat)
      requires Ready() && Cell(t, boxDist, box, off)
      modifies this, mk, mk.mk
      ensures Ready() && off + Size(t) <= pidx.Length && visited == old(visited) + Bucket(pidx[..], off, Size(t))
      ensures Walked(goal, maxErr, pts, pidx[..], q, t, boxDist, off, old(mk.log), mk.log)
      decreases t, 1
    {
      hide Progress, Built, Bucket, Fit, Walked, LeafLog;
      CellSize(t, boxDist, box, off);
      match t {
        case Leaf(_, _) =>
          LeafWalked(goal, maxErr, pts, pidx[..], q, t, boxDist, off, mk.log);
          SearchLeaf(t, box, off);
        case Split(_, _, _, _, _, _) => SearchSplit(t, boxDist, box, off);
        case Shrink(_, _, _) => SearchShrink(t, boxDist, box, off);
      }
    }

    lemma CellSize(t: Tree, boxDist: real, box: Rect, off: nat)
      requires Cell(t, boxDist, box, off)
      ensures off + Size(t) <= pidx.Length
    {
    }

    /** What is beyond the bound does not matter. */
    lemma BeyondBound(d: real)
      requires mk.Valid() && maxErr >= 1.0 && d >= 0.0 && (goal.Nearest? ==> goal.k == mk.k)
      requires Bound().Finite? && d > Bound().v
      ensures Spared(goal, maxErr, mk.log, d)
    {
      MaxKeyIs(mk);
      FarPoint(goal, maxErr, mk.log, d);
    }

    /** The bound and the test for closeness, by the log. */
    lemma BoundIs(d: real)
      requires mk.Valid() && (goal.Nearest? ==> goal.k == mk.k)
      ensures Close(d) <==> !TooFar(goal, maxErr, mk.log, d)
      ensures InBound(goal, mk.log, d) <==> Bound().Infinite? || d <= Bound().v
    {
      hide KthKey;
      MaxKeyIs(mk);
    }

    lemma NotClose(boxDist: real, d: real)
      requires mk.Valid() && maxErr >= 1.0 && boxDist <= d && !Close(boxDist) && (goal.Nearest? ==> goal.k == mk.k)
      ensures Spared(goal, maxErr, mk.log, d)
    {
      MaxKeyIs(mk);
      FarBox(goal, maxErr, mk.log, boxDist, d);
    }

    /** ANNkd_leaf::ann_search */
    method SearchLeaf(t: Tree, ghost box: Rect, ghost off: nat)
      requires t.Leaf? && Ready() && Built(t, pts, pidx[..], dim, box, off)
      modifies this, mk, mk.mk
      ensures Ready() && off + Size(t) <= pidx.Length && visited == old(visited) + Bucket(pidx[..], off, Size(t))
      ensures mk.log == LeafLog(goal, pts, pidx[..], q, off, t.n, old(mk.log))
    {
      hide Progress, Spared, KthKey, DistOf, ANNmin_k.Contents, ANNmin_k.Valid, Built, Bucket, Fit, Dist, LeafLog, InBound;
      ghost var s, was, log0 := pidx[..], visited, mk.log;
      LeafAt(t, pts, s, dim, box, off);
      NoBucket(s, off);
      NoLeafLog(goal, pts, s, q, off, mk.log);
      var minDist := Bound();
      for i := 0 to t.n
        invariant Ready() && s == pidx[..] && minDist == Bound()
        invariant visited == was + Bucket(s, off, i) && mk.log == LeafLog(goal, pts, s, q, off, i, log0)
      {
        BucketNext(s, off, i);
        LeafLogNext(goal, pts, s, q, off, i, log0);
        PointAt(pts, s, dim, t.off + i);
        var x := pidx[t.off + i];
        assert x == s[t.off + i];
        var dist, full := PartialDist(pts[x], q, minDist);
        DistIs(pts, q, x);
        BoundIs(DistOf(pts, q, x));
        if !full { BeyondBound(DistOf(pts, q, x)); }
        if full {
          Inserted(goal, maxErr, pts, q, mk.log, visited, x);
          mk.Add(dist, x);
          if goal.Within? { inRange := inRange + 1; }
          minDist := Bound();
        } else {
          PassedOver(goal, maxErr, pts, q, mk.log, visited, multiset{x});
        }
        visited := visited + multiset{x};
      }
    }

    /** ANNkd_split::ann_search: the closer child first, the other one unless it is too far. */
    method SearchSplit(t: Tree, boxDist: real, ghost box: Rect, ghost off: nat)
      requires t.Split? && Ready() && Cell(t, boxDist, box, off)
      modifies this, mk, mk.mk
      ensures Ready() && off + Size(t) <= pidx.Length && visited == old(visited) + Bucket(pidx[..], off, Size(t))
      ensures Walked(goal, maxErr, pts, pidx[..], q, t, boxDist, off, old(mk.log), mk.log)
      decreases t, 0
    {
      hide Progress, Built, Bucket, Spared, KthKey, DistOf, Fit, ANNmin_k.Contents, ANNmin_k.Valid, Walked, FarWalked, FarDist;
      ghost var s, was := pidx[..], visited;
      ghost var loBox, hiBox := SplitCells(t, boxDist, box, off);
      BucketParts(s, off, Size(t.lo), Size(t.hi));
      var far := FarDist(q, t.cd, t.cv, t.lb, t.hb, boxDist);
      ghost var log0 := mk.log;
      if q[t.cd] < t.cv {
        Search(t.lo, boxDist, loBox, off);
        ghost var mid := mk.log;
        SearchFar(t.hi, far, hiBox, off + Size(t.lo));
        SplitWalked(goal, maxErr, pts, s, q, t, boxDist, off, log0, mid, mk.log);
      } else {
        Search(t.hi, boxDist, hiBox, off + Size(t.lo));
        ghost var mid := mk.log;
        SearchFar(t.lo, far, loBox, off);
        SplitWalked(goal, maxErr, pts, s, q, t, boxDist, off, log0, mid, mk.log);
      }
    }

    /** Visit the further child if it is close enough. */
    method SearchFar(t: Tree, far: real, ghost box: Rect, ghost off: nat)
      requires Ready() && Cell(t, far, box, off)
      modifies this, mk, mk.mk
      ensures Ready() && off + Size(t) <= pidx.Length && visited == old(visited) + Bucket(pidx[..], off, Size(t))
      ensures FarWalked(goal, maxErr, pts, pidx[..], q, t, far, off, old(mk.log), mk.log)
      decreases t, 2
    {
      hide Progress, Built, Bucket, Spared, KthKey, DistOf, Fit, ANNmin_k.Contents, ANNmin_k.Valid, Walked, TooFar;
      CellSize(t, far, box, off);
      BoundIs(far);
      if Close(far) {
        Search(t, far, box, off);
      } else {
        ghost var s := pidx[..];
        SubtreeFar(t, pts, s, dim, box, off, q);
        forall x: nat | x in Bucket(s, off, Size(t)) ensures Spared(goal, maxErr, mk.log, DistOf(pts, q, x)) {
          NotClose(far, DistOf(pts, q, x));
        }
        PassedOver(goal, maxErr, pts, q, mk.log, visited, Bucket(s, off, Size(t)));
        visited := visited + Bucket(s, off, Size(t));
      }
    }

    /** The cells of the children, and their distances. */
    lemma SplitCells(t: Tree, boxDist: real, box: Rect, off: nat) returns (loBox: Rect, hiBox: Rect)
      requires t.Split? && Cell(t, boxDist, box, off)
      ensures t.cd < |q| && off + Size(t) <= pidx.Length && FarDist(q, t.cd, t.cv, t.lb, t.hb, boxDist) >= boxDist
      ensures var far := FarDist(q, t.cd, t.cv, t.lb, t.hb, boxDist);
        Cell(t.lo, if q[t.cd] < t.cv then boxDist else far, loBox, off)
        && Cell(t.hi, if q[t.cd] < t.cv then far else boxDist, hiBox, off + Size(t.lo))
    {
      hide FarDist, BoxDist, Cut, Bounds, AllWithin, Contains, Holds, Misses, Sq;
      loBox, hiBox := WithSide(box, t.cd, t.lb, t.cv), WithSide(box, t.cd, t.cv, t.hb);
      ChildDist(q, box, t.cd, t.cv, boxDist);
    }

    /** The cells of the children of a shrinking node; the distance of the inner one is a lower bound. */
    lemma ShrinkCells(t: Tree, boxDist: real, box: Rect, off: nat)
      requires t.Shrink? && Cell(t, boxDist, box, off)
      ensures AllWithin(t.bnds, |q|) && |box.lo| == |box.hi| == |q| && off + Size(t) <= pidx.Length
      ensures Cell(t.inner, OutDist(t.bnds, q), Cut(box, t.bnds), off) && Cell(t.outer, boxDist, box, off + Size(t.inner))
    {
      hide Bounds, Cut, OutDist, Holds, Misses;
      OutBelow(Cut(box, t.bnds), box, q, dim);
    }

    /** ANNbd_shrink::ann_search: both children, the closer one first. */
    method SearchShrink(t: Tree, boxDist: real, ghost box: Rect, ghost off: nat)
      requires t.Shrink? && Ready() && Cell(t, boxDist, box, off)
      modifies this, mk, mk.mk
      ensures Ready() && off + Size(t) <= pidx.Length && visited == old(visited) + Bucket(pidx[..], off, Size(t))
      ensures Walked(goal, maxErr, pts, pidx[..], q, t, boxDist, off, old(mk.log), mk.log)
      decreases t, 0
    {
      hide Progress, Built, Bucket, Fit, Cut, OutDist, ANNmin_k.Contents, ANNmin_k.Valid, Walked;
      ghost var s, was := pidx[..], visited;
      ShrinkCells(t, boxDist, box, off);
      BucketParts(s, off, Size(t.inner), Size(t.outer));
      var innerDist := InnerDist(t.bnds, q);
      ghost var log0 := mk.log;
      if innerDist <= boxDist {
        Search(t.inner, innerDist, Cut(box, t.bnds), off);
        ghost var mid := mk.log;
        Search(t.outer, boxDist, box, off + Size(t.inner));
        ShrinkWalked(goal, maxErr, pts, s, q, t, boxDist, off, log0, mid, mk.log);
      } else {
        Search(t.outer, boxDist, box, off + Size(t.inner));
        ghost var mid := mk.log;
        Search(t.inner, innerDist, Cut(box, t.bnds), off);
        ShrinkWalked(goal, maxErr, pts, s, q, t, boxDist, off, log0, mid, mk.log);
      }
    }
  }

  /** The square of 1 + eps, ANNkdMaxErr. */
  function MaxErr(eps: real): (r: real)
    requires eps >= 0.0
    ensures r >= 1.0 && r == (1.0 + eps) * (1.0 + eps)
  {
    SqMono(1.0, 1.0 + eps);
    Sq(1.0 + eps)
  }

  /** The root's cell is the tree's box. */
  lemma RootCell(s: Searcher, t: ANNtree, boxDist: real)
    requires t.Valid() && t.nPts > 0 && |s.q| == s.dim == t.dim && s.pts == t.pts && s.pidx == t.pidx
    requires |t.bndBox.lo| == |t.bndBox.hi| == |s.q| ==> boxDist == BoxDist(s.q, t.bndBox)
    requires s.plain ==> Plain(t.root.value)
    ensures s.Cell(t.root.value, boxDist, t.bndBox, 0)
  {
    hide Built;
    BuiltSize(t.root.value, t.pts, t.pidx[..], t.dim, t.bndBox, 0);
  }

  lemma WholeBucket(s: seq<nat>, n: nat)
    requires |s| == n
    ensures Bucket(s, 0, n) == multiset(s)
  {
    assert s[0..n] == s;
  }

  lemma TreeFits(t: ANNtree, q: Point)
    requires t.Valid() && |q| == t.dim
    ensures Fits(t.pts, q, t.nPts)
  {
    hide Built;
    forall i: nat | i < t.nPts ensures |t.pts[i]| == |q| {
      IdentityAt(t.nPts, i);
      assert i in multiset(t.pidx[..]);
      var j :| 0 <= j < |t.pidx[..]| && t.pidx[..][j] == i;
    }
  }

  /** The reply to a nearest-neighbour query that has come by every point. */
  lemma NearestReply(t: ANNtree, q: Point, k: nat, eps: real, log: seq<Node>, dd: seq<Key>, nnIdx: seq<int>)
    requires t.Valid() && |q| == t.dim && k >= 1 && eps >= 0.0
    requires Progress(Nearest(k), MaxErr(eps), t.pts, q, log, multiset(Identity(t.nPts))) && Reports(AnswerOf(k, log), k, dd, nnIdx)
    ensures KNearest(t.pts, q, t.nPts, k, (1.0 + eps) * (1.0 + eps), dd, nnIdx)
    ensures Ranked(t.pts, q, t.nPts, MaxErr(eps), AnswerOf(k, log)) && |AnswerOf(k, log)| == if k <= t.nPts then k else t.nPts
    ensures eps == 0.0 ==> Distances(AnswerOf(k, Everyone(t.pts, q, t.nPts)), k, dd)
  {
    hide Progress, Ranked, AnswerOf, Everyone, Built, Sq, Fit, Distances, KNearest;
    GoodAnswer(Nearest(k), MaxErr(eps), t.pts, q, t.nPts, log, k);
    FullAnswer(MaxErr(eps), t.pts, q, t.nPts, log, k);
    TreeFits(t, q);
    NearestAnswer(t.pts, q, t.nPts, k, MaxErr(eps), log, dd, nnIdx);
    if eps == 0.0 { ExactSearch(t.pts, q, t.nPts, k, AnswerOf(k, log), dd); }
  }

  /** And to a query within a radius. */
  lemma RadiusReply(t: ANNtree, q: Point, sqRad: real, k: nat, eps: real, log: seq<Node>, dd: seq<Key>, nnIdx: seq<int>)
    returns (counted: set<nat>)
    requires t.Valid() && |q| == t.dim && k >= 1 && eps >= 0.0
    requires Progress(Within(sqRad), MaxErr(eps), t.pts, q, log, multiset(Identity(t.nPts))) && Reports(AnswerOf(k, log), k, dd, nnIdx)
    ensures InRadius(t.pts, q, t.nPts, sqRad, k, (1.0 + eps) * (1.0 + eps), counted, |log|, dd, nnIdx)
    ensures CountLe(Everyone(t.pts, q, t.nPts), sqRad / MaxErr(eps)) <= |log| <= CountLe(Everyone(t.pts, q, t.nPts), sqRad)
    ensures Ranked(t.pts, q, t.nPts, MaxErr(eps), AnswerOf(k, log)) && |AnswerOf(k, log)| == if k <= |log| then k else |log|
    ensures Sound(t.pts, q, log) && Infos(log) <= multiset(Identity(t.nPts)) && forall x :: x in log ==> x.key <= sqRad
    ensures eps == 0.0 ==> |log| == CountLe(Everyone(t.pts, q, t.nPts), sqRad) && Distances(AnswerOf(k, NearBy(t.pts, q, t.nPts, sqRad)), k, dd)
  {
    hide Progress, Ranked, Everyone, Built, Sq, Fit, Distances, CountLe, Sort, InRadius, NearBy;
    GoodAnswer(Within(sqRad), MaxErr(eps), t.pts, q, t.nPts, log, k);
    RangeCount(MaxErr(eps), t.pts, q, t.nPts, log, sqRad);
    InRange(MaxErr(eps), t.pts, q, log, multiset(Identity(t.nPts)), sqRad);
    TreeFits(t, q);
    counted := RadiusAnswer(t.pts, q, t.nPts, sqRad, k, MaxErr(eps), log, dd, nnIdx);
    if eps == 0.0 { ExactRange(t.pts, q, t.nPts, k, sqRad, AnswerOf(k, log), dd); }
  }

  /** annkSearch: k distinct points with their distances, in order; at each rank the distance is at most
      (1 + eps) squared times that of brute force. */
  method AnnkSearch(t: ANNtree, q: Point, k: nat, eps: real) returns (r: Reply, ghost ans: seq<Node>)
    requires t.Valid() && |q| == t.dim && k >= 1 && eps >= 0.0
    ensures r == Refused <==> k > t.nPts
    ensures r.Found? ==> KNearest(t.pts, q, t.nPts, k, (1.0 + eps) * (1.0 + eps), r.dd, r.nnIdx)
    ensures r.Found? ==> Ranked(t.pts, q, t.nPts, MaxErr(eps), ans) && |ans| == k && Reports(ans, k, r.dd, r.nnIdx)
    ensures r.Found? && eps == 0.0 ==> Distances(AnswerOf(k, Everyone(t.pts, q, t.nPts)), k, r.dd)
  {
    hide Progress, Ranked, AnswerOf, Everyone, Built, Bucket, Sq, Searcher.Cell, Fit, ANNmin_k.Valid, Distances, KNearest;
    ans := [];
    if k > t.nPts { return Refused, ans; }
    var s := new Searcher(Nearest(k), t.dim, q, MaxErr(eps), t.pts, t.pidx, k, Plain(t.root.value));
    BuiltSize(t.root.value, t.pts, t.pidx[..], t.dim, t.bndBox, 0);
    var boxDist := AnnBoxDistance(q, t.bndBox);
    RootCell(s, t, boxDist);
    s.Search(t.root.value, boxDist, t.bndBox, 0);
    WholeBucket(t.pidx[..], t.nPts);
    assert s.visited == multiset(Identity(t.nPts));
    ans := AnswerOf(k, s.mk.log);
    var dd, nnIdx := Extract(s.mk);
    r := Found(dd, nnIdx);
    NearestReply(t, q, k, eps, s.mk.log, dd, nnIdx);
  }

  /** annkFRSearch: the count lies between the numbers of points within the radius with and without the error
      allowance; the points reported are the closest of those counted, which `log` lists. */
  method AnnkFRSearch(t: ANNtree, q: Point, sqRad: real, k: nat, eps: real)
    returns (count: nat, dd: seq<Key>, nnIdx: seq<int>, ghost log: seq<Node>, ghost ans: seq<Node>)
    requires t.Valid() && t.nPts > 0 && |q| == t.dim && k >= 1 && eps >= 0.0
    ensures CountLe(Everyone(t.pts, q, t.nPts), sqRad / MaxErr(eps)) <= count <= CountLe(Everyone(t.pts, q, t.nPts), sqRad)
    ensures Ranked(t.pts, q, t.nPts, MaxErr(eps), ans) && |ans| == (if k <= count then k else count) && Reports(ans, k, dd, nnIdx)
    ensures |log| == count && Sound(t.pts, q, log) && Infos(log) <= multiset(Identity(t.nPts)) && forall x :: x in log ==> x.key <= sqRad
    ensures var factor := (1.0 + eps) * (1.0 + eps);
      exists counted :: InRadius(t.pts, q, t.nPts, sqRad, k, factor, counted, count, dd, nnIdx)
    ensures ans == AnswerOf(k, log)
    ensures eps == 0.0 ==> count == CountLe(Everyone(t.pts, q, t.nPts), sqRad) && Distances(AnswerOf(k, NearBy(t.pts, q, t.nPts, sqRad)), k, dd)
  {
    hide Progress, Ranked, Everyone, Built, Bucket, Sq, Searcher.Cell, Fit, ANNmin_k.Valid, Distances, CountLe, Sort, InRadius, AnswerOf, NearBy;
    var s := new Searcher(Within(sqRad), t.dim, q, MaxErr(eps), t.pts, t.pidx, k, Plain(t.root.value));
    BuiltSize(t.root.value, t.pts, t.pidx[..], t.dim, t.bndBox, 0);
    var boxDist := AnnBoxDistance(q, t.bndBox);
    RootCell(s, t, boxDist);
    s.Search(t.root.value, boxDist, t.bndBox, 0);
    WholeBucket(t.pidx[..], t.nPts);
    assert s.visited == multiset(Identity(t.nPts));
    log := s.mk.log;
    ans := AnswerOf(k, log);
    dd, nnIdx := Extract(s.mk);
    count := s.inRange;
    ghost var counted := RadiusReply(t, q, sqRad, k, eps, log, dd, nnIdx);
  }

  lemma InRange(maxErr: real, pts: seq<Point>, q: Point, log: seq<Node>, visited: multiset<nat>, r: real)
    requires Progress(Within(r), maxErr, pts, q, log, visited)
    ensures Sound(pts, q, log) && Infos(log) <= visited && forall x :: x in log ==> x.key <= r
  {
  }
}
