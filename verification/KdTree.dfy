// Building kd-trees and bd-trees (kd_tree.cpp, bd_tree.cpp): recursion on stretches of the index array,
// which is permuted on the way, and on one box, whose sides are changed and restored.
module KdTree {
  import opened Geometry
  import opened PointSplit
  import opened CellRules
  import opened KdSplit

  /** ANNkd_leaf, whose bucket is a stretch of the index array; ANNkd_split; ANNbd_shrink. */
  datatype Tree =
    | Leaf(off: nat, n: nat)
    | Split(cd: nat, cv: real, lb: real, hb: real, lo: Tree, hi: Tree)
    | Shrink(bnds: seq<HalfSpace>, inner: Tree, outer: Tree)

  /** KD_TRIVIAL, the one empty leaf. */
  const TRIVIAL := Leaf(0, 0)

  /** How many points a tree holds. */
  function Size(t: Tree): nat {
    match t
    case Leaf(_, n) => n
    case Split(_, _, _, _, lo, hi) => Size(lo) + Size(hi)
    case Shrink(_, inner, outer) => Size(inner) + Size(outer)
  }

  /** No shrinking nodes: a kd-tree. */
  predicate Plain(t: Tree) {
    match t
    case Leaf(_, _) => true
    case Split(_, _, _, _, lo, hi) => Plain(lo) && Plain(hi)
    case Shrink(_, _, _) => false
  }

  /** No leaf holds more than bsp points. */
  predicate Buckets(t: Tree, bsp: nat) {
    match t
    case Leaf(_, n) => n <= bsp
    case Split(_, _, _, _, lo, hi) => Buckets(lo, bsp) && Buckets(hi, bsp)
    case Shrink(_, inner, outer) => Buckets(inner, bsp) && Buckets(outer, bsp)
  }

  /** t is a tree for the points of s from off on, all in its cell, the box: buckets are the consecutive
      stretches, cuts lie in their cells, only leaves are empty, and shrinking nodes list the sides where the inner box is smaller. */
  ghost predicate Built(t: Tree, pts: seq<Point>, s: seq<nat>, dim: nat, box: Rect, off: nat) {
    && IsBox(box, dim) && off + Size(t) <= |s|
    && match t
       case Leaf(o, n) => (o == if n == 0 then 0 else off) && Holds(pts, s, off, n, box)
       case Split(cd, cv, lb, hb, lo, hi) =>
         && cd < dim && lb == box.lo[cd] <= cv <= hb == box.hi[cd] && Size(t) >= 1
         && Built(lo, pts, s, dim, WithSide(box, cd, lb, cv), off)
         && Built(hi, pts, s, dim, WithSide(box, cd, cv, hb), off + Size(lo))
       case Shrink(bnds, inner, outer) =>
         && Size(t) >= 1 && AllWithin(bnds, dim) && Contains(box, Cut(box, bnds), dim) && bnds == Bounds(Cut(box, bnds), box, dim)
         && Built(inner, pts, s, dim, Cut(box, bnds), off) && Built(outer, pts, s, dim, box, off + Size(inner))
         && Misses(pts, s, off + Size(inner), Size(outer), Cut(box, bnds))
  }

  /** t is a tree that the rules lead to: a leaf wherever a bucket suffices, and otherwise a shrinking node just where
      the shrinking rule shrinks the cell, and a cut that the splitting rule makes where it does not. */
  ghost predicate Grown(t: Tree, split: SplitRule, rule: ShrinkRule, pts: seq<Point>, s: seq<nat>, dim: nat, bsp: nat, box: Rect, off: nat) {
    && |box.lo| == |box.hi| == dim && off + Size(t) <= |s|
    && var m := Bucket(s, off, Size(t));
    match t
    case Leaf(_, n) => n <= bsp
    case Split(cd, cv, _, _, lo, hi) =>
      && Size(t) > bsp && Stays(rule, pts, m, dim, box)
      && CutBy(split, pts, m, Bucket(s, off, Size(lo)), Bucket(s, off + Size(lo), Size(hi)), dim, box, cd, cv)
      && Grown(lo, split, rule, pts, s, dim, bsp, WithSide(box, cd, box.lo[cd], cv), off)
      && Grown(hi, split, rule, pts, s, dim, bsp, WithSide(box, cd, cv, box.hi[cd]), off + Size(lo))
    case Shrink(bnds, inner, outer) =>
      && Size(t) > bsp && AllWithin(bnds, dim) && ShrinksTo(rule, pts, m, dim, box, Cut(box, bnds))
      && Grown(inner, split, rule, pts, s, dim, bsp, Cut(box, bnds), off)
      && Grown(outer, split, rule, pts, s, dim, bsp, box, off + Size(inner))
  }

  lemma SameBucket(s: seq<nat>, s': seq<nat>, a: nat, b: nat, off: nat, n: nat)
    requires a <= off && off + n <= b <= |s| == |s'| && s'[a..b] == s[a..b]
    ensures Bucket(s', off, n) == Bucket(s, off, n)
  {
    SubStretch(s, s', a, b, off, off + n);
  }

  /** It, too, depends only on its own stretch. */
  lemma {:induction false} GrownFrame(t: Tree, split: SplitRule, rule: ShrinkRule, pts: seq<Point>, s: seq<nat>, s': seq<nat>, dim: nat, bsp: nat,
                                      box: Rect, off: nat)
    requires Grown(t, split, rule, pts, s, dim, bsp, box, off) && |s'| == |s| && s'[off..off + Size(t)] == s[off..off + Size(t)]
    ensures Grown(t, split, rule, pts, s', dim, bsp, box, off)
  {
    hide CutBy, Stays, ShrinksTo, Cut, AllWithin, Bucket;
    var e := off + Size(t);
    SameBucket(s, s', off, e, off, Size(t));
    match t {
      case Leaf(_, _) =>
      case Split(cd, cv, _, _, lo, hi) =>
        SameBucket(s, s', off, e, off, Size(lo));
        SameBucket(s, s', off, e, off + Size(lo), Size(hi));
        SubStretch(s, s', off, e, off, off + Size(lo));
        SubStretch(s, s', off, e, off + Size(lo), e);
        CutInside(split, pts, Bucket(s, off, Size(t)), Bucket(s, off, Size(lo)), Bucket(s, off + Size(lo), Size(hi)), dim, box, cd, cv);
        GrownFrame(lo, split, rule, pts, s, s', dim, bsp, WithSide(box, cd, box.lo[cd], cv), off);
        GrownFrame(hi, split, rule, pts, s, s', dim, bsp, WithSide(box, cd, cv, box.hi[cd]), off + Size(lo));
      case Shrink(bnds, inner, outer) =>
        SubStretch(s, s', off, e, off, off + Size(inner));
        SubStretch(s, s', off, e, off + Size(inner), e);
        GrownFrame(inner, split, rule, pts, s, s', dim, bsp, Cut(box, bnds), off);
        GrownFrame(outer, split, rule, pts, s, s', dim, bsp, box, off + Size(inner));
    }
  }

  lemma CutInside(split: SplitRule, pts: seq<Point>, m: multiset<nat>, lo: multiset<nat>, hi: multiset<nat>, dim: nat, box: Rect, cd: nat, cv: real)
    requires CutBy(split, pts, m, lo, hi, dim, box, cd, cv)
    ensures cd < dim
  {
  }

  /** None of the points lies in the box. */
  ghost predicate Misses(pts: seq<Point>, s: seq<nat>, off: nat, n: nat, b: Rect) {
    forall i: nat :: off <= i < off + n && i < |s| && s[i] < |pts| ==> !Inside(b, pts[s[i]])
  }

  lemma HoldsWider(pts: seq<Point>, s: seq<nat>, off: nat, n: nat, dim: nat, inner: Rect, b: Rect)
    requires Contains(b, inner, dim) && Holds(pts, s, off, n, inner)
    ensures Holds(pts, s, off, n, b)
  {
    forall i: nat | off <= i < off + n && i < |s| && s[i] < |pts| ensures Inside(b, pts[s[i]]) {
      assert Inside(inner, pts[s[i]]);
    }
  }

  /** Every point of a tree lies in its cell. */
  lemma {:induction false} BuiltHolds(t: Tree, pts: seq<Point>, s: seq<nat>, dim: nat, box: Rect, off: nat)
    requires Built(t, pts, s, dim, box, off)
    ensures Holds(pts, s, off, Size(t), box)
  {
    hide Holds, Misses, Cut, Bounds, AllWithin;
    match t {
      case Leaf(_, _) =>
      case Split(cd, cv, lb, hb, lo, hi) =>
        var l, h := WithSide(box, cd, lb, cv), WithSide(box, cd, cv, hb);
        BuiltHolds(lo, pts, s, dim, l, off);
        BuiltHolds(hi, pts, s, dim, h, off + Size(lo));
        HoldsWider(pts, s, off, Size(lo), dim, l, box);
        HoldsWider(pts, s, off + Size(lo), Size(hi), dim, h, box);
        HoldsBoth(pts, s, off, Size(lo), Size(hi), box);
      case Shrink(bnds, inner, outer) =>
        BuiltHolds(inner, pts, s, dim, Cut(box, bnds), off);
        BuiltHolds(outer, pts, s, dim, box, off + Size(inner));
        HoldsWider(pts, s, off, Size(inner), dim, Cut(box, bnds), box);
        HoldsBoth(pts, s, off, Size(inner), Size(outer), box);
    }
  }

  lemma HoldsBoth(pts: seq<Point>, s: seq<nat>, off: nat, m: nat, n: nat, b: Rect)
    requires Holds(pts, s, off, m, b) && Holds(pts, s, off + m, n, b)
    ensures Holds(pts, s, off, m + n, b)
  {
  }

  lemma SplitParts(t: Tree, pts: seq<Point>, s: seq<nat>, dim: nat, box: Rect, off: nat)
    requires t.Split? && IsBox(box, dim) && off + Size(t) <= |s| && t.cd < dim && t.lb == box.lo[t.cd] <= t.cv <= t.hb == box.hi[t.cd]
    ensures Size(t) == Size(t.lo) + Size(t.hi)
    ensures Built(t, pts, s, dim, box, off) <==> (
      && Size(t) >= 1
      && Built(t.lo, pts, s, dim, WithSide(box, t.cd, t.lb, t.cv), off)
      && Built(t.hi, pts, s, dim, WithSide(box, t.cd, t.cv, t.hb), off + Size(t.lo)))
  {
  }

  lemma BuiltCell(t: Tree, pts: seq<Point>, s: seq<nat>, dim: nat, box: Rect, off: nat)
    requires Built(t, pts, s, dim, box, off)
    ensures IsBox(box, dim) && off + Size(t) <= |s|
    ensures t.Split? ==> t.cd < dim && t.lb == box.lo[t.cd] <= t.cv <= t.hb == box.hi[t.cd]
    ensures t.Shrink? ==> AllWithin(t.bnds, dim) && Contains(box, Cut(box, t.bnds), dim) && t.bnds == Bounds(Cut(box, t.bnds), box, dim)
  {
  }

  lemma ShrinkParts(t: Tree, pts: seq<Point>, s: seq<nat>, dim: nat, box: Rect, off: nat)
    requires t.Shrink? && IsBox(box, dim) && off + Size(t) <= |s|
    requires AllWithin(t.bnds, dim) && Contains(box, Cut(box, t.bnds), dim) && t.bnds == Bounds(Cut(box, t.bnds), box, dim)
    ensures Size(t) == Size(t.inner) + Size(t.outer)
    ensures Built(t, pts, s, dim, box, off) <==> (
      && Size(t) >= 1
      && Built(t.inner, pts, s, dim, Cut(box, t.bnds), off) && Built(t.outer, pts, s, dim, box, off + Size(t.inner))
      && Misses(pts, s, off + Size(t.inner), Size(t.outer), Cut(box, t.bnds)))
  {
  }

  lemma LeafFrame(t: Tree, pts: seq<Point>, s: seq<nat>, s': seq<nat>, dim: nat, box: Rect, off: nat)
    requires t.Leaf? && Built(t, pts, s, dim, box, off) && |s'| == |s| && s'[off..off + Size(t)] == s[off..off + Size(t)]
    ensures Built(t, pts, s', dim, box, off)
  {
    HoldsFrame(pts, s, s', off, t.n, box);
  }

  /** A tree depends only on its own stretch of the array. */
  lemma {:induction false} BuiltFrame(t: Tree, pts: seq<Point>, s: seq<nat>, s': seq<nat>, dim: nat, box: Rect, off: nat)
    requires Built(t, pts, s, dim, box, off) && |s'| == |s| && s'[off..off + Size(t)] == s[off..off + Size(t)]
    ensures Built(t, pts, s', dim, box, off)
  {
    hide Built, Size, Holds, Misses, Contains, Cut, Bounds, AllWithin;
    BuiltCell(t, pts, s, dim, box, off);
    match t {
      case Leaf(_, _) =>
        LeafFrame(t, pts, s, s', dim, box, off);
      case Split(cd, cv, lb, hb, lo, hi) =>
        SplitParts(t, pts, s, dim, box, off);
        SplitParts(t, pts, s', dim, box, off);
        SubStretch(s, s', off, off + Size(t), off, off + Size(lo));
        SubStretch(s, s', off, off + Size(t), off + Size(lo), off + Size(t));
        BuiltFrame(lo, pts, s, s', dim, WithSide(box, cd, lb, cv), off);
        BuiltFrame(hi, pts, s, s', dim, WithSide(box, cd, cv, hb), off + Size(lo));
      case Shrink(bnds, inner, outer) =>
        ShrinkParts(t, pts, s, dim, box, off);
        ShrinkParts(t, pts, s', dim, box, off);
        SubStretch(s, s', off, off + Size(t), off, off + Size(inner));
        SubStretch(s, s', off, off + Size(t), off + Size(inner), off + Size(t));
        BuiltFrame(inner, pts, s, s', dim, Cut(box, bnds), off);
        BuiltFrame(outer, pts, s, s', dim, box, off + Size(inner));
        HoldsFrame(pts, s, s', off + Size(inner), Size(outer), Cut(box, bnds));
    }
  }

  lemma HoldsFrame(pts: seq<Point>, s: seq<nat>, s': seq<nat>, off: nat, n: nat, b: Rect)
    requires off + n <= |s| == |s'| && s'[off..off + n] == s[off..off + n]
    ensures Holds(pts, s, off, n, b) ==> Holds(pts, s', off, n, b)
    ensures Misses(pts, s, off, n, b) ==> Misses(pts, s', off, n, b)
  {
    hide Inside;
    forall i: nat | off <= i < off + n ensures s'[i] == s[i] {
      assert s'[off..off + n][i - off] == s[off..off + n][i - off];
    }
  }

  lemma SubStretch(s: seq<nat>, s': seq<nat>, a: nat, b: nat, c: nat, d: nat)
    requires a <= c <= d <= b <= |s| == |s'| && s'[a..b] == s[a..b]
    ensures s'[c..d] == s[c..d]
  {
    forall i | c <= i < d ensures s'[i] == s[i] {
      assert s'[a..b][i - a] == s[a..b][i - a];
    }
  }

  // ---------- the box ----------

  /** ANNorthRect as an object whose sides are assigned. */
  class OrthRect {
    var lo: Point
    var hi: Point

    constructor (b: Rect)
      ensures Box() == b
    {
      lo := b.lo;
      hi := b.hi;
    }

    function Box(): Rect
      reads this
    {
      Rect(lo, hi)
    }
  }

  // ---------- kd-trees ----------

  /** The parts of a split lie in the parts of the cell. */
  lemma SplitHolds(pts: seq<Point>, s: seq<nat>, off: nat, n: nat, dim: nat, box: Rect, cd: nat, cv: real, nLo: nat)
    requires off + n <= |s| && Fit(pts, s, dim) && IsBox(box, dim) && Holds(pts, s, off, n, box) && Splits(pts, s, off, n, box, cd, cv, nLo)
    ensures Holds(pts, s, off, nLo, WithSide(box, cd, box.lo[cd], cv)) && Holds(pts, s, off + nLo, n - nLo, WithSide(box, cd, cv, box.hi[cd]))
    ensures IsBox(WithSide(box, cd, box.lo[cd], cv), dim) && IsBox(WithSide(box, cd, cv, box.hi[cd]), dim)
  {
    var l, h := WithSide(box, cd, box.lo[cd], cv), WithSide(box, cd, cv, box.hi[cd]);
    forall i: nat | off <= i < off + nLo ensures Inside(l, pts[s[i]]) {
      CoordAt(pts, s, i, cd, dim);
      assert Inside(box, pts[s[i]]) && Coord(pts, s, i, cd) <= cv;
    }
    forall i: nat | off + nLo <= i < off + n ensures Inside(h, pts[s[i]]) {
      CoordAt(pts, s, i, cd, dim);
      assert Inside(box, pts[s[i]]) && Coord(pts, s, i, cd) >= cv;
    }
  }

  /** s1 is what the splitter leaves, s2 what the first child leaves and s3 what the second leaves. */
  lemma Stages(s0: seq<nat>, s1: seq<nat>, s2: seq<nat>, s3: seq<nat>, a: nat, m: nat, b: nat)
    requires a <= m <= b <= |s0| && Permuted(s0, s1, a, b) && |s1| == |s0| && Permuted(s1, s2, a, m) && |s2| == |s0| && Permuted(s2, s3, m, b)
    ensures Permuted(s0, s3, a, b) && |s3| == |s0| && Permuted(s0, s2, a, b)
    ensures s2[m..b] == s1[m..b] && s3[a..m] == s2[a..m]
  {
    Wider(s1, s2, a, m, a, b);
    Wider(s2, s3, m, b, a, b);
    Trans(s0, s1, s2, a, b);
    Trans(s0, s2, s3, a, b);
    SubStretch(s1[m..], s2[m..], 0, |s0| - m, 0, b - m);
    assert s1[m..][..b - m] == s1[m..b] && s2[m..][..b - m] == s2[m..b];
    assert s2[..m][a..m] == s2[a..m] && s3[..m][a..m] == s3[a..m];
  }

  lemma SplitBuilt(pts: seq<Point>, s2: seq<nat>, s3: seq<nat>, dim: nat, box: Rect, off: nat, cd: nat, cv: real, lo: Tree, hi: Tree)
    requires IsBox(box, dim) && cd < dim && box.lo[cd] <= cv <= box.hi[cd] && |s3| == |s2|
    requires Built(lo, pts, s2, dim, WithSide(box, cd, box.lo[cd], cv), off)
    requires Built(hi, pts, s3, dim, WithSide(box, cd, cv, box.hi[cd]), off + Size(lo))
    requires s3[off..off + Size(lo)] == s2[off..off + Size(lo)] && Size(lo) + Size(hi) >= 1
    ensures Built(Split(cd, cv, box.lo[cd], box.hi[cd], lo, hi), pts, s3, dim, box, off)
    ensures Size(Split(cd, cv, box.lo[cd], box.hi[cd], lo, hi)) == Size(lo) + Size(hi)
  {
    hide Holds, Misses, Cut, Bounds, AllWithin, Contains;
    BuiltFrame(lo, pts, s2, s3, dim, WithSide(box, cd, box.lo[cd], cv), off);
  }

  lemma PermutedBucket(s: seq<nat>, t: seq<nat>, a: nat, b: nat, off: nat, n: nat)
    requires a <= b <= |s| && Permuted(s, t, a, b) && off + n <= |s|
    requires (off <= a && b <= off + n) || off + n <= a || b <= off
    ensures |t| == |s| && Bucket(t, off, n) == Bucket(s, off, n)
  {
    if off <= a && b <= off + n {
      Wider(s, t, a, b, off, off + n);
    } else if off + n <= a {
      assert s[off..off + n] == s[..a][off..off + n] && t[off..off + n] == t[..a][off..off + n];
    } else {
      Dropped(s, b, off, n);
      Dropped(t, b, off, n);
    }
  }

  lemma Dropped(s: seq<nat>, b: nat, off: nat, n: nat)
    requires b <= off && off + n <= |s|
    ensures s[off..off + n] == s[b..][off - b..off - b + n]
  {
  }

  /** A splitting node after both children: s1 is what the splitter leaves, s2 what the first child leaves, s3 what the
      second leaves. */
  lemma SplitGrown(split: SplitRule, rule: ShrinkRule, pts: seq<Point>, s1: seq<nat>, s2: seq<nat>, s3: seq<nat>, dim: nat, bsp: nat, box: Rect,
                   off: nat, n: nat, nLo: nat, t: Tree)
    requires bsp < n && 1 <= nLo <= n && off + n <= |s1| && |box.lo| == |box.hi| == dim && t.Split? && t.cd < dim
    requires Size(t.lo) == nLo && Size(t.hi) == n - nLo
    requires Permuted(s1, s2, off, off + nLo) && |s2| == |s1| && Permuted(s2, s3, off + nLo, off + n) && |s3| == |s1|
    requires Stays(rule, pts, Bucket(s1, off, n), dim, box)
    requires CutBy(split, pts, Bucket(s1, off, n), Bucket(s1, off, nLo), Bucket(s1, off + nLo, n - nLo), dim, box, t.cd, t.cv)
    requires Grown(t.lo, split, rule, pts, s2, dim, bsp, WithSide(box, t.cd, box.lo[t.cd], t.cv), off)
    requires Grown(t.hi, split, rule, pts, s3, dim, bsp, WithSide(box, t.cd, t.cv, box.hi[t.cd]), off + nLo)
    ensures Grown(t, split, rule, pts, s3, dim, bsp, box, off)
  {
    hide CutBy, Stays, ShrinksTo, Cut, AllWithin, Bucket, Permuted;
    PermutedBucket(s1, s2, off, off + nLo, off, n);
    PermutedBucket(s1, s2, off, off + nLo, off, nLo);
    PermutedBucket(s1, s2, off, off + nLo, off + nLo, n - nLo);
    PermutedBucket(s2, s3, off + nLo, off + n, off, n);
    PermutedBucket(s2, s3, off + nLo, off + n, off, nLo);
    PermutedBucket(s2, s3, off + nLo, off + n, off + nLo, n - nLo);
    LowerKept(s2, s3, off, nLo, n);
    GrownFrame(t.lo, split, rule, pts, s2, s3, dim, bsp, WithSide(box, t.cd, box.lo[t.cd], t.cv), off);
    SizeOfSplit(t);
  }

  lemma LowerKept(s2: seq<nat>, s3: seq<nat>, off: nat, nLo: nat, n: nat)
    requires nLo <= n && off + n <= |s2| && Permuted(s2, s3, off + nLo, off + n) && |s3| == |s2|
    ensures s3[off..off + nLo] == s2[off..off + nLo]
  {
    assert s2[off..off + nLo] == s2[..off + nLo][off..] && s3[off..off + nLo] == s3[..off + nLo][off..];
  }

  lemma SizeOfSplit(t: Tree)
    requires t.Split?
    ensures Size(t) == Size(t.lo) + Size(t.hi)
  {
  }

  lemma LeafShape(t: Tree, bsp: nat)
    requires t.Leaf?
    ensures Plain(t) && (Buckets(t, bsp) <==> t.n <= bsp)
  {
  }

  lemma SplitShape(t: Tree, bsp: nat)
    requires t.Split?
    ensures Buckets(t, bsp) <==> Buckets(t.lo, bsp) && Buckets(t.hi, bsp)
    ensures Plain(t) <==> Plain(t.lo) && Plain(t.hi)
  {
  }

  lemma NeverStays(rule: ShrinkRule, pts: seq<Point>, m: multiset<nat>, dim: nat, box: Rect)
    requires |box.lo| == |box.hi| == dim
    ensures rule.Never? ==> Stays(rule, pts, m, dim, box)
  {
  }

  lemma LeafGrown(split: SplitRule, rule: ShrinkRule, pts: seq<Point>, s: seq<nat>, dim: nat, bsp: nat, box: Rect, off: nat, t: Tree)
    requires t.Leaf? && t.n <= bsp && off + t.n <= |s| && IsBox(box, dim)
    ensures Grown(t, split, rule, pts, s, dim, bsp, box, off)
  {
  }

  lemma LeafBuilt(pts: seq<Point>, s: seq<nat>, dim: nat, box: Rect, off: nat, n: nat)
    requires IsBox(box, dim) && off + n <= |s| && Holds(pts, s, off, n, box)
    ensures Built(if n == 0 then TRIVIAL else Leaf(off, n), pts, s, dim, box, off) && Size(TRIVIAL) == 0 && Size(Leaf(off, n)) == n
  {
  }

  /** rkd_tree */
  method RkdTree(pts: seq<Point>, pidx: array<nat>, off: nat, n: nat, dim: nat, bsp: nat, bndBox: OrthRect, splitter: SplitRule)
    returns (t: Tree)
    requires off + n <= pidx.Length && Fit(pts, pidx[..], dim) && dim >= 1 && bsp >= 1
    requires IsBox(bndBox.Box(), dim) && Holds(pts, pidx[..], off, n, bndBox.Box())
    modifies pidx, bndBox
    ensures bndBox.Box() == old(bndBox.Box())
    ensures Permuted(old(pidx[..]), pidx[..], off, off + n) && Fit(pts, pidx[..], dim)
    ensures Built(t, pts, pidx[..], dim, bndBox.Box(), off) && Size(t) == n && Plain(t) && Buckets(t, bsp)
    ensures Grown(t, splitter, Never, pts, pidx[..], dim, bsp, bndBox.Box(), off)
    decreases n
  {
    hide Permuted, Fit, Splits, Holds, Built, IsBox, Size, Plain, Buckets, Grown, Stays, CutBy, Bucket;
    ghost var s0, box := pidx[..], bndBox.Box();
    if n <= bsp {
      SamePermuted(s0, off, off + n);
      LeafBuilt(pts, s0, dim, box, off, n);
      t := if n == 0 then TRIVIAL else Leaf(off, n);
      LeafShape(t, bsp);
      LeafGrown(splitter, Never, pts, s0, dim, bsp, box, off, t);
      return;
    }
    var cd, cv, nLo := SplitBy(splitter, pts, pidx, off, n, dim, bndBox.Box());
    ghost var s1 := pidx[..];
    SplitIn(pts, s1, off, n, box, cd, cv, nLo);
    HoldsPermuted(pts, s0, s1, off, n, dim, box);
    SplitHolds(pts, s1, off, n, dim, box, cd, cv, nLo);
    var lv, hv := bndBox.lo[cd], bndBox.hi[cd];
    bndBox.hi := bndBox.hi[cd := cv];
    assert bndBox.Box() == WithSide(box, cd, lv, cv);
    var lo := RkdTree(pts, pidx, off, nLo, dim, bsp, bndBox, splitter);
    bndBox.hi := bndBox.hi[cd := hv];
    assert bndBox.Box() == box;
    ghost var s2 := pidx[..];
    UpperHalf(pts, s1, s2, off, n, nLo, WithSide(box, cd, cv, hv));
    bndBox.lo := bndBox.lo[cd := cv];
    assert bndBox.Box() == WithSide(box, cd, cv, hv);
    var hi := RkdTree(pts, pidx, off + nLo, n - nLo, dim, bsp, bndBox, splitter);
    bndBox.lo := bndBox.lo[cd := lv];
    assert bndBox.Box() == box;
    Stages(s0, s1, s2, pidx[..], off, off + nLo, off + n);
    SplitBuilt(pts, s2, pidx[..], dim, box, off, cd, cv, lo, hi);
    t := Split(cd, cv, lv, hv, lo, hi);
    SplitShape(t, bsp);
    NeverStays(Never, pts, Bucket(s1, off, n), dim, box);
    SplitGrown(splitter, Never, pts, s1, s2, pidx[..], dim, bsp, box, off, n, nLo, t);
  }

  lemma SplitIn(pts: seq<Point>, s: seq<nat>, off: nat, n: nat, box: Rect, cd: nat, cv: real, nLo: nat)
    requires Splits(pts, s, off, n, box, cd, cv, nLo)
    ensures cd < |box.lo| == |box.hi| && box.lo[cd] <= cv <= box.hi[cd] && 1 <= nLo < n
  {
  }

  /** The first child leaves the points of the second where they are. */
  lemma UpperHalf(pts: seq<Point>, s1: seq<nat>, s2: seq<nat>, off: nat, n: nat, nLo: nat, b: Rect)
    requires nLo <= n && off + n <= |s1| && Permuted(s1, s2, off, off + nLo) && Holds(pts, s1, off + nLo, n - nLo, b)
    ensures Holds(pts, s2, off + nLo, n - nLo, b)
  {
    var m := off + nLo;
    assert s1[m..off + n] == s1[m..][..n - nLo] == s2[m..][..n - nLo] == s2[m..off + n];
    HoldsFrame(pts, s1, s2, m, n - nLo, b);
  }
}
