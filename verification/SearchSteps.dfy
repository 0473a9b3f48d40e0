// What the three searches share: distances of cells, buckets, and the distance loop of a leaf.
module SearchSteps {
  import opened Geometry
  import opened PointSplit
  import opened KdTree
  import opened MinK
  import opened Neighbours

  /** The distance given to the child on the other side of the cut: one term of the box distance changes. */
  function FarDist(q: Point, cd: nat, cv: real, lb: real, hb: real, boxDist: real): real
    requires cd < |q|
  {
    var cutDiff := q[cd] - cv;
    var boxDiff := if cutDiff < 0.0 then lb - q[cd] else q[cd] - hb;
    boxDist + (Sq(cutDiff) - Sq(if boxDiff < 0.0 then 0.0 else boxDiff))
  }

  /** The child on q's side is as far as the cell; the other is farther by just the change of that term. */
  lemma ChildDist(q: Point, box: Rect, cd: nat, cv: real, boxDist: real)
    requires IsBox(box, |q|) && cd < |q| && box.lo[cd] <= cv <= box.hi[cd]
    ensures var lo, hi := WithSide(box, cd, box.lo[cd], cv), WithSide(box, cd, cv, box.hi[cd]);
      var near, far := if q[cd] < cv then lo else hi, if q[cd] < cv then hi else lo;
      && BoxDist(q, near) == BoxDist(q, box) <= BoxDist(q, far)
      && FarDist(q, cd, cv, box.lo[cd], box.hi[cd], boxDist) - boxDist == BoxDist(q, far) - BoxDist(q, box)
  {
    hide Sq;
    var x, l, h := q[cd], box.lo[cd], box.hi[cd];
    SideDist(q, box, cd, l, cv, |q|);
    SideDist(q, box, cd, cv, h, |q|);
    GapTerms(x, l, cv, h);
  }

  lemma GapTerms(x: real, l: real, cv: real, h: real)
    requires l <= cv <= h
    ensures Sq(Gap(x, l, h)) <= Sq(x - cv)
    ensures x < cv ==> Gap(x, l, cv) == Gap(x, l, h) == (if l - x < 0.0 then 0.0 else l - x)
    ensures x < cv ==> Sq(Gap(x, cv, h)) == Sq(x - cv)
    ensures x >= cv ==> Gap(x, cv, h) == Gap(x, l, h) == (if x - h < 0.0 then 0.0 else x - h)
    ensures x >= cv ==> Sq(Gap(x, l, cv)) == Sq(x - cv)
  {
    if x < cv {
      assert cv - x == -(x - cv);
      SqMono(Gap(x, l, h), cv - x);
    } else {
      SqMono(Gap(x, l, h), x - cv);
    }
  }

  /** The distance of a shrinking node's inner box, without the sides it shares with the cell. */
  method InnerDist(bnds: seq<HalfSpace>, q: Point) returns (dist: real)
    requires AllWithin(bnds, |q|)
    ensures dist == OutDist(bnds, q)
  {
    dist := 0.0;
    for i := 0 to |bnds|
      invariant dist == OutDist(bnds[..i], q)
    {
      assert bnds[..i + 1][..i] == bnds[..i];
      if bnds[i].Out(q) { dist := dist + Sq(q[bnds[i].cd] - bnds[i].cv); }
    }
    assert bnds[..|bnds|] == bnds;
  }

  lemma BucketParts(s: seq<nat>, off: nat, m: nat, n: nat)
    requires off + m + n <= |s|
    ensures Bucket(s, off, m + n) == Bucket(s, off, m) + Bucket(s, off + m, n)
  {
    assert s[off..off + (m + n)] == s[off..off + m] + s[off + m..off + m + n];
  }

  /** No point of a subtree is closer than its cell. */
  lemma SubtreeFar(t: Tree, pts: seq<Point>, s: seq<nat>, dim: nat, box: Rect, off: nat, q: Point)
    requires Built(t, pts, s, dim, box, off) && Fit(pts, s, dim) && |q| == dim
    ensures forall x: nat :: x in Bucket(s, off, Size(t)) ==> BoxDist(q, box) <= DistOf(pts, q, x)
  {
    hide Built, Sq;
    BuiltSize(t, pts, s, dim, box, off);
    BuiltHolds(t, pts, s, dim, box, off);
    forall x: nat | x in Bucket(s, off, Size(t)) ensures BoxDist(q, box) <= DistOf(pts, q, x) {
      var i :| 0 <= i < Size(t) && s[off..off + Size(t)][i] == x;
      assert s[off + i] == x;
      BoxBelow(q, box, pts[x], dim);
    }
  }

  lemma BuiltSize(t: Tree, pts: seq<Point>, s: seq<nat>, dim: nat, box: Rect, off: nat)
    requires Built(t, pts, s, dim, box, off)
    ensures IsBox(box, dim) && off + Size(t) <= |s|
  {
  }

  /** Add up the distance, but stop as soon as it exceeds the bound. */
  method PartialDist(p: Point, q: Point, bound: Key) returns (dist: real, full: bool)
    requires |p| == |q|
    ensures full ==> dist == Dist(p, q)
    ensures full <==> |q| == 0 || bound.Infinite? || Dist(p, q) <= bound.v
  {
    dist, full := 0.0, true;
    for d := 0 to |q|
      invariant dist == DistTo(p, q, d) && (d > 0 && bound.Finite? ==> dist <= bound.v)
    {
      SqSign(q[d] - p[d]);
      assert q[d] - p[d] == -(p[d] - q[d]);
      dist := dist + Sq(q[d] - p[d]);
      if bound.Finite? && dist > bound.v {
        DistGrows(p, q, d + 1, |q|);
        return dist, false;
      }
    }
  }

  lemma MaxKeyIs(mk: ANNmin_k)
    requires mk.Valid()
    ensures mk.MaxKey() == KthKey(mk.k, mk.log)
  {
  }

  /** The distances that the entry routines copy out of the k-set, padded with infinity. */
  ghost predicate Distances(ans: seq<Node>, k: nat, dd: seq<Key>) {
    |dd| == k && forall i: nat :: i < k ==> dd[i] == if i < |ans| then Finite(ans[i].key) else Infinite
  }

  /** And the indices, padded with -1. */
  ghost predicate Reports(ans: seq<Node>, k: nat, dd: seq<Key>, nnIdx: seq<int>) {
    Distances(ans, k, dd) && |nnIdx| == k && forall i: nat :: i < k ==> nnIdx[i] == if i < |ans| then ans[i].info else -1
  }

  method Extract(mk: ANNmin_k) returns (dd: seq<Key>, nnIdx: seq<int>)
    requires mk.Valid()
    ensures Reports(AnswerOf(mk.k, mk.log), mk.k, dd, nnIdx)
  {
    dd, nnIdx := [], [];
    for i := 0 to mk.k
      invariant |dd| == |nnIdx| == i
      invariant forall j: nat :: j < i ==> dd[j] == mk.IthSmallestKey(j) && nnIdx[j] == mk.IthSmallestInfo(j)
    {
      dd := dd + [mk.IthSmallestKey(i)];
      nnIdx := nnIdx + [mk.IthSmallestInfo(i)];
    }
    assert forall j: nat :: j < mk.n ==> mk.mk[j] == mk.Contents()[j];
  }

  /** A bucket is a stretch of the index array. */
  lemma LeafAt(t: Tree, pts: seq<Point>, s: seq<nat>, dim: nat, box: Rect, off: nat)
    requires t.Leaf? && Built(t, pts, s, dim, box, off)
    ensures off + t.n <= |s| && (t.n > 0 ==> t.off == off) && Size(t) == t.n
  {
  }

  lemma PointAt(pts: seq<Point>, s: seq<nat>, dim: nat, i: nat)
    requires Fit(pts, s, dim) && i < |s|
    ensures s[i] < |pts| && |pts[s[i]]| == dim
  {
  }

  lemma NoBucket(s: seq<nat>, off: nat)
    requires off <= |s|
    ensures Bucket(s, off, 0) == multiset{}
  {
    assert s[off..off] == [];
  }

  lemma BucketNext(s: seq<nat>, off: nat, i: nat)
    requires off + i < |s|
    ensures Bucket(s, off, i + 1) == Bucket(s, off, i) + multiset{s[off + i]}
  {
    assert s[off..off + (i + 1)] == s[off..off + i] + [s[off + i]];
  }

  lemma DistIs(pts: seq<Point>, q: Point, x: nat)
    requires x < |pts| && |pts[x]| == |q|
    ensures DistOf(pts, q, x) == Dist(pts[x], q) >= 0.0
  {
    DistOfSign(pts, q, x);
  }

  // ---------- the order of the search ----------

  /** A cell at this distance is not searched. */
  predicate TooFar(goal: Goal, maxErr: real, log: seq<Node>, d: real) {
    match goal
    case Nearest(k) => KthKey(k, log).Finite? && d * maxErr >= KthKey(k, log).v
    case Within(r) => d * maxErr > r
  }

  /** A point at this distance is inserted. */
  predicate InBound(goal: Goal, log: seq<Node>, d: real) {
    match goal
    case Nearest(k) => KthKey(k, log).Infinite? || d <= KthKey(k, log).v
    case Within(r) => d <= r
  }

  /** The insertions up to the end of a bucket. */
  function LeafLog(goal: Goal, pts: seq<Point>, s: seq<nat>, q: Point, off: nat, n: nat, log: seq<Node>): seq<Node>
    requires off + n <= |s|
  {
    if n == 0 then log
    else
      var l, x := LeafLog(goal, pts, s, q, off, n - 1, log), s[off + n - 1];
      if InBound(goal, l, DistOf(pts, q, x)) then l + [Node(DistOf(pts, q, x), x)] else l
  }

  /** The search of a subtree takes the insertions from log to log': a bucket point by point; the child on the query's
      side of a cut first, and the other one just if it is not too far by then; both children of a shrinking node, the
      one with the smaller distance first. */
  ghost predicate Walked(goal: Goal, maxErr: real, pts: seq<Point>, s: seq<nat>, q: Point, t: Tree, boxDist: real, off: nat,
                         log: seq<Node>, log': seq<Node>)
    decreases t, 0
  {
    && off + Size(t) <= |s|
    && match t
       case Leaf(_, n) => log' == LeafLog(goal, pts, s, q, off, n, log)
       case Split(cd, cv, lb, hb, lo, hi) =>
         && cd < |q|
         && var far, offHi := FarDist(q, cd, cv, lb, hb, boxDist), off + Size(lo);
         if q[cd] < cv then
           exists mid :: Walked(goal, maxErr, pts, s, q, lo, boxDist, off, log, mid) && FarWalked(goal, maxErr, pts, s, q, hi, far, offHi, mid, log')
         else
           exists mid :: Walked(goal, maxErr, pts, s, q, hi, boxDist, offHi, log, mid) && FarWalked(goal, maxErr, pts, s, q, lo, far, off, mid, log')
       case Shrink(bnds, inner, outer) =>
         && AllWithin(bnds, |q|)
         && var d, offOut := OutDist(bnds, q), off + Size(inner);
         if d <= boxDist then
           exists mid :: Walked(goal, maxErr, pts, s, q, inner, d, off, log, mid) && Walked(goal, maxErr, pts, s, q, outer, boxDist, offOut, mid, log')
         else
           exists mid :: Walked(goal, maxErr, pts, s, q, outer, boxDist, offOut, log, mid) && Walked(goal, maxErr, pts, s, q, inner, d, off, mid, log')
  }

  ghost predicate FarWalked(goal: Goal, maxErr: real, pts: seq<Point>, s: seq<nat>, q: Point, t: Tree, far: real, off: nat,
                            log: seq<Node>, log': seq<Node>)
    decreases t, 1
  {
    if TooFar(goal, maxErr, log, far) then log' == log else Walked(goal, maxErr, pts, s, q, t, far, off, log, log')
  }

  lemma LeafLogNext(goal: Goal, pts: seq<Point>, s: seq<nat>, q: Point, off: nat, i: nat, log: seq<Node>)
    requires off + i < |s|
    ensures var l, x := LeafLog(goal, pts, s, q, off, i, log), s[off + i];
      LeafLog(goal, pts, s, q, off, i + 1, log) == if InBound(goal, l, DistOf(pts, q, x)) then l + [Node(DistOf(pts, q, x), x)] else l
  {
  }

  lemma LeafWalked(goal: Goal, maxErr: real, pts: seq<Point>, s: seq<nat>, q: Point, t: Tree, boxDist: real, off: nat, log: seq<Node>)
    requires t.Leaf? && off + t.n <= |s|
    ensures Walked(goal, maxErr, pts, s, q, t, boxDist, off, log, LeafLog(goal, pts, s, q, off, t.n, log))
  {
  }

  lemma NoLeafLog(goal: Goal, pts: seq<Point>, s: seq<nat>, q: Point, off: nat, log: seq<Node>)
    requires off <= |s|
    ensures LeafLog(goal, pts, s, q, off, 0, log) == log
  {
  }

  lemma SplitWalked(goal: Goal, maxErr: real, pts: seq<Point>, s: seq<nat>, q: Point, t: Tree, boxDist: real, off: nat,
                    log: seq<Node>, mid: seq<Node>, log': seq<Node>)
    requires t.Split? && off + Size(t) <= |s| && t.cd < |q|
    requires var far, offHi := FarDist(q, t.cd, t.cv, t.lb, t.hb, boxDist), off + Size(t.lo);
      if q[t.cd] < t.cv then
        Walked(goal, maxErr, pts, s, q, t.lo, boxDist, off, log, mid) && FarWalked(goal, maxErr, pts, s, q, t.hi, far, offHi, mid, log')
      else
        Walked(goal, maxErr, pts, s, q, t.hi, boxDist, offHi, log, mid) && FarWalked(goal, maxErr, pts, s, q, t.lo, far, off, mid, log')
    ensures Walked(goal, maxErr, pts, s, q, t, boxDist, off, log, log')
  {
    hide FarWalked, FarDist, LeafLog;
  }

  lemma ShrinkWalked(goal: Goal, maxErr: real, pts: seq<Point>, s: seq<nat>, q: Point, t: Tree, boxDist: real, off: nat,
                     log: seq<Node>, mid: seq<Node>, log': seq<Node>)
    requires t.Shrink? && off + Size(t) <= |s| && AllWithin(t.bnds, |q|)
    requires var d, offOut := OutDist(t.bnds, q), off + Size(t.inner);
      if d <= boxDist then
        Walked(goal, maxErr, pts, s, q, t.inner, d, off, log, mid) && Walked(goal, maxErr, pts, s, q, t.outer, boxDist, offOut, mid, log')
      else
        Walked(goal, maxErr, pts, s, q, t.outer, boxDist, offOut, log, mid) && Walked(goal, maxErr, pts, s, q, t.inner, d, off, mid, log')
    ensures Walked(goal, maxErr, pts, s, q, t, boxDist, off, log, log')
  {
    hide OutDist, LeafLog;
  }
}
