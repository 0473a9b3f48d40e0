// The search structures as objects: ANNkd_tree and ANNbd_tree (kd_tree.cpp, bd_tree.cpp).
module AnnTree {
  import opened Geometry
  import opened PointSplit
  import opened CellRules
  import opened KdTree
  import opened BdTree
  import opened Wrappers

  /** The indices 0 .. n - 1. */
  function Identity(n: nat): (s: seq<nat>)
    ensures |s| == n && forall i: nat :: i < n ==> s[i] == i
  {
    seq(n, i => i)
  }

  /** ANNkd_tree, and ANNbd_tree, which differs from it in its root only. */
  class ANNtree {
    const pts: seq<Point>
    const nPts: nat
    const dim: nat
    const bktSize: nat
    const pidx: array<nat>
    var root: Option<Tree>
    var bndBox: Rect

    /** All points, each once, in one tree over their enclosing box. */
    ghost predicate Valid()
      reads this, pidx
    {
      && dim >= 1 && nPts == pidx.Length <= |pts| && Fit(pts, pidx[..], dim) && multiset(pidx[..]) == multiset(Identity(nPts))
      && (nPts > 0 ==> root.Some? && Built(root.value, pts, pidx[..], dim, bndBox, 0) && Size(root.value) == nPts)
    }

    /** The kd-tree constructor.  The points need not be distinct. */
    constructor KdTree(pa: seq<Point>, n: nat, dd: nat, bs: nat, split: SplitRule)
      requires n <= |pa| && dd >= 1 && bs >= 1 && forall i: nat :: i < |pa| ==> |pa[i]| == dd
      ensures Valid() && pts == pa && nPts == n && dim == dd && bktSize == bs && fresh(pidx)
      ensures if n == 0 then root == None else Plain(root.value) && Buckets(root.value, bs)
      ensures n > 0 ==> Grown(root.value, split, Never, pa, pidx[..], dd, bs, bndBox, 0)
      ensures n > 0 ==> Tight(pa, pidx[..], 0, n, dd, bndBox)
    {
      hide Permuted, Fit, Tight, Holds, Built, Grown;
      pts, nPts, dim, bktSize := pa, n, dd, bs;
      root, bndBox := None, Rect([], []);
      pidx := new nat[n](i => i);
      new;
      Skeleton(pa, pidx[..], n, dd);
      if n == 0 { return; }
      bndBox := EnclRect(pa, pidx, 0, n, dd);
      Enclosed(pa, pidx[..], n, dd, bndBox);
      var box := new OrthRect(bndBox);
      ghost var s := pidx[..];
      var t := RkdTree(pa, pidx, 0, n, dd, bs, box, split);
      root := Some(t);
      Renumbered(pa, s, pidx[..], n, dd, bndBox);
    }

    /** The bd-tree constructor. */
    constructor BdTree(pa: seq<Point>, n: nat, dd: nat, bs: nat, split: SplitRule, shrink: ShrinkRule)
      requires n <= |pa| && dd >= 1 && bs >= 1 && forall i: nat :: i < |pa| ==> |pa[i]| == dd
      requires Apt(shrink, pa, Identity(n), 0, n, bs)
      ensures Valid() && pts == pa && nPts == n && dim == dd && bktSize == bs && fresh(pidx)
      ensures if n == 0 then root == None else Buckets(root.value, bs) && Hollow(root.value) && Alternates(root.value)
      ensures n > 0 ==> Grown(root.value, split, shrink, pa, pidx[..], dd, bs, bndBox, 0)
      ensures n > 0 ==> Tight(pa, pidx[..], 0, n, dd, bndBox)
    {
      hide Permuted, Fit, Tight, Holds, Built, Apt, Settled, Grown;
      pts, nPts, dim, bktSize := pa, n, dd, bs;
      root, bndBox := None, Rect([], []);
      pidx := new nat[n](i => i);
      new;
      Skeleton(pa, pidx[..], n, dd);
      if n == 0 { return; }
      bndBox := EnclRect(pa, pidx, 0, n, dd);
      Enclosed(pa, pidx[..], n, dd, bndBox);
      var box := new OrthRect(bndBox);
      ghost var s := pidx[..];
      var t := RbdTree(pa, pidx, 0, n, dd, bs, box, split, shrink, false);
      root := Some(t);
      Renumbered(pa, s, pidx[..], n, dd, bndBox);
    }
  }

  /** SkeletonTree numbers the points in order. */
  lemma Skeleton(pa: seq<Point>, s: seq<nat>, n: nat, dd: nat)
    requires n == |s| <= |pa| && (forall i: nat :: i < |pa| ==> |pa[i]| == dd) && forall i: nat :: i < n ==> s[i] == i
    ensures s == Identity(n) && Fit(pa, s, dd)
  {
  }

  lemma Enclosed(pa: seq<Point>, s: seq<nat>, n: nat, dd: nat, b: Rect)
    requires 1 <= n == |s| && Fit(pa, s, dd) && Tight(pa, s, 0, n, dd, b)
    ensures IsBox(b, dd) && Holds(pa, s, 0, n, b)
  {
    hide MinOf, MaxOf;
    TightLeast(pa, s, 0, n, dd, b, b);
  }

  lemma Renumbered(pa: seq<Point>, s: seq<nat>, t: seq<nat>, n: nat, dd: nat, b: Rect)
    requires 1 <= n == |s| && Permuted(s, t, 0, n) && Tight(pa, s, 0, n, dd, b)
    ensures multiset(t) == multiset(s) && Tight(pa, t, 0, n, dd, b)
  {
    hide MinOf, MaxOf;
    assert s[0..n] == s && t[0..n] == t;
    forall d: nat | d < dd ensures b.lo[d] == MinOf(pa, t, 0, n, d) && b.hi[d] == MaxOf(pa, t, 0, n, d) {
      ExtentPermuted(pa, s, t, 0, n, d);
    }
  }
}
