// What the simple shrinking rule of bd_tree.cpp makes of more coinciding points than a bucket holds.
module CoincidingPoints {
  import opened Geometry
  import opened PointSplit
  import opened CellRules
  import opened KdSplit
  import opened KdTree
  import opened BdTree

  /** The arguments of a call of rbd_tree that matter: where the points start, how many they are, the cell. */
  datatype Call = Call(off: nat, n: nat, box: Rect)

  /** One call of rbd_tree with coinciding points, up to the call for the inner child: it shrinks, to the place
      of the points, and all points go inside. */
  method InnerCall(pts: seq<Point>, pidx: array<nat>, off: nat, n: nat, dim: nat, bsp: nat, b: Rect, innerBox: OrthRect)
    returns (shrink: bool, nIn: nat, ghost t: Rect)
    requires n > bsp >= 1 && off + n <= pidx.Length && Fit(pts, pidx[..], dim) && dim >= 1
    requires IsBox(b, dim) && Holds(pts, pidx[..], off, n, b) && Coincide(pts, multiset(pidx[off..off + n]))
    modifies pidx, innerBox
    ensures shrink && nIn == n && innerBox.Box() == t && Tight(pts, pidx[..], off, n, dim, t) && t.lo == t.hi
    ensures Tight(pts, old(pidx[..]), off, n, dim, t)
    ensures Fit(pts, pidx[..], dim) && IsBox(t, dim) && Holds(pts, pidx[..], off, n, t) && Coincide(pts, multiset(pidx[off..off + n]))
    ensures Permuted(old(pidx[..]), pidx[..], off, off + n)
  {
    hide Permuted, Fit, Holds, Tight, Pulled, LongestTo, Shrinks, Inside, Contains, Coincide;
    ghost var s0 := pidx[..];
    assert s0[off..off + n] == pidx[off..off + n];
    shrink, t := SelectDecomp(Simple, pts, pidx, off, n, dim, b, innerBox);
    ghost var r := innerBox.Box();
    FlatShrinks(pts, s0, off, n, dim, b, t, r);
    nIn := BoxSplit(pts, pidx, off, n, dim, innerBox.Box());
    ghost var s1 := pidx[..];
    assert s1[off..off + n] == pidx[off..off + n];
    AllInside(pts, s0, s1, off, n, dim, t, nIn);
  }

  lemma FlatShrinks(pts: seq<Point>, s: seq<nat>, off: nat, n: nat, dim: nat, b: Rect, t: Rect, r: Rect)
    requires n >= 1 && off + n <= |s| && Fit(pts, s, dim) && dim >= 1 && IsBox(b, dim) && Holds(pts, s, off, n, b)
    requires Coincide(pts, multiset(s[off..off + n])) && Tight(pts, s, off, n, dim, t) && Pulled(r, b, t, LongestTo(t, dim), dim, dim)
    ensures |t.lo| == |t.hi| == dim && Shrinks(b, t, dim) && r == t && t.lo == t.hi && IsBox(t, dim)
  {
    hide Fit, Holds, Tight, Coincide, Pulled, Shrinks, LongestTo;
    TightDim(pts, s, off, n, dim, t);
    FlatCoincide(pts, s, off, n, dim, t);
    TightLeast(pts, s, off, n, dim, t, b);
    ShrinksAgain(r, b, t, dim);
    BoxOf(b, t, dim);
  }

  lemma AllInside(pts: seq<Point>, s0: seq<nat>, s1: seq<nat>, off: nat, n: nat, dim: nat, t: Rect, nIn: nat)
    requires n >= 1 && off + n <= |s0| && Fit(pts, s0, dim) && Fit(pts, s1, dim) && Permuted(s0, s1, off, off + n)
    requires Tight(pts, s0, off, n, dim, t) && Coincide(pts, multiset(s0[off..off + n])) && nIn <= n
    requires forall i: nat :: off <= i < off + n && i < |s1| && s1[i] < |pts| ==> (Inside(t, pts[s1[i]]) <==> i < off + nIn)
    ensures |s1| == |s0| && nIn == n && Holds(pts, s1, off, n, t) && Coincide(pts, multiset(s1[off..off + n])) && Tight(pts, s1, off, n, dim, t)
  {
    hide Tight, Inside, Coincide, MinOf, MaxOf;
    TightLeast(pts, s0, off, n, dim, t, t);
    HoldsPermuted(pts, s0, s1, off, n, dim, t);
    FitAt(pts, s1, dim, off + n - 1);
    SameTight(pts, s0, s1, off, n, dim, t);
  }

  lemma SameTight(pts: seq<Point>, s0: seq<nat>, s1: seq<nat>, off: nat, n: nat, dim: nat, t: Rect)
    requires n >= 1 && off + n <= |s0| && Permuted(s0, s1, off, off + n) && Tight(pts, s0, off, n, dim, t)
    ensures Tight(pts, s1, off, n, dim, t)
  {
    hide Permuted, MinOf, MaxOf;
    forall d: nat | d < dim ensures t.lo[d] == MinOf(pts, s1, off, n, d) && t.hi[d] == MaxOf(pts, s1, off, n, d) {
      ExtentPermuted(pts, s0, s1, off, n, d);
    }
  }

  /** More coinciding points than a bucket holds: rbd_tree calls itself for the inner child to any depth k,
      each time with the same stretch of the index array, and from the first of these calls on with the same
      cell. */
  method CoincidingPointsShrinkForever(pts: seq<Point>, pidx: array<nat>, off: nat, n: nat, dim: nat, bsp: nat, b: Rect, k: nat)
    returns (ghost calls: seq<Call>)
    requires n > bsp >= 1 && off + n <= pidx.Length && Fit(pts, pidx[..], dim) && dim >= 1
    requires IsBox(b, dim) && Holds(pts, pidx[..], off, n, b) && Coincide(pts, multiset(pidx[off..off + n]))
    modifies pidx
    ensures |calls| == k + 1 && calls[0] == Call(off, n, b)
    ensures forall i :: 1 <= i <= k ==> calls[i].off == off && calls[i].n == n > bsp && Tight(pts, old(pidx[..]), off, n, dim, calls[i].box)
    ensures forall i :: 1 < i <= k ==> calls[i] == calls[1]
    ensures Permuted(old(pidx[..]), pidx[..], off, off + n)
  {
    hide Permuted, Fit, Holds, Tight, Coincide;
    calls := [Call(off, n, b)];
    ghost var s0 := pidx[..];
    SamePermuted(s0, off, off + n);
    var box := b;
    for i := 0 to k
      invariant Fit(pts, pidx[..], dim) && IsBox(box, dim) && Holds(pts, pidx[..], off, n, box) && Coincide(pts, multiset(pidx[off..off + n]))
      invariant |calls| == i + 1 && calls[0] == Call(off, n, b) && Permuted(s0, pidx[..], off, off + n)
      invariant i > 0 ==> Tight(pts, s0, off, n, dim, box)
      invariant forall j :: 1 <= j <= i ==> calls[j] == Call(off, n, box)
    {
      ghost var s1 := pidx[..];
      var innerBox := new OrthRect(Rect([], []));
      var shrink, nIn, t := InnerCall(pts, pidx, off, n, dim, bsp, box, innerBox);
      TightBack(pts, s0, s1, pidx[..], off, n, dim, t, box, i > 0);
      box := innerBox.Box();
      calls := calls + [Call(off, nIn, box)];
    }
  }

  lemma TightBack(pts: seq<Point>, s0: seq<nat>, s1: seq<nat>, s2: seq<nat>, off: nat, n: nat, dim: nat, t: Rect, box: Rect, same: bool)
    requires n >= 1 && off + n <= |s0| && Permuted(s0, s1, off, off + n) && off + n <= |s1| && Permuted(s1, s2, off, off + n)
    requires Tight(pts, s1, off, n, dim, t) && (same ==> Tight(pts, s0, off, n, dim, box))
    ensures Permuted(s0, s2, off, off + n) && Tight(pts, s0, off, n, dim, t) && (same ==> t == box)
  {
    hide Tight, MinOf, MaxOf;
    Trans(s0, s1, s2, off, off + n);
    SameTight(pts, s1, s0, off, n, dim, t);
    if same { TightUnique(pts, s0, s1, off, n, dim, box, t); }
  }

  // ---------- coinciding points that are split ----------

  /** Four points on a line, two of them coincide. */
  const LINE: seq<Point> := [[0.0], [5.0], [5.0], [10.0]]

  const ORDER: seq<nat> := [0, 1, 2, 3]

  lemma LineNotSparse()
    ensures !Sparse(LINE, ORDER, 0, 4, 1)
  {
    var m: multiset<nat> := multiset{1, 2};
    assert ORDER[0..4] == [0] + [1, 2] + [3];
    assert multiset(ORDER[0..4]) == multiset([0]) + multiset([1, 2]) + multiset([3]);
    assert m == multiset([1, 2]);
    assert Coincide(LINE, m) && |m| == 2;
  }

  lemma FourDifferent(s: seq<nat>)
    requires |s| == 4 && multiset(s) == multiset(ORDER)
    ensures forall i :: 0 <= i < 4 ==> s[i] < 4
    ensures forall i, j :: 0 <= i < j < 4 ==> s[i] != s[j]
  {
    forall i | 0 <= i < 4 ensures s[i] < 4 {
      assert s[i] in multiset(s);
      assert s[i] in ORDER;
    }
    forall i, j | 0 <= i < j < 4 ensures s[i] != s[j] {
      if s[i] == s[j] { Twice(s, i, j); }
    }
  }

  lemma Twice(s: seq<nat>, i: nat, j: nat)
    requires i < j < |s| && s[i] == s[j]
    ensures multiset(s)[s[i]] >= 2
  {
    var a, b := s[..i + 1], s[i + 1..];
    assert s == a + b;
    assert a[i] == s[i] && b[j - i - 1] == s[j];
    assert s[i] in multiset(a) && s[i] in multiset(b);
  }

  /** Halving leaves the two in different halves. */
  lemma HalvesDiffer(s: seq<nat>, cv: real)
    requires |s| == 4 && multiset(s) == multiset(ORDER) && AllLe(LINE, s, 0, cv, 0, 2) && AllGe(LINE, s, 0, cv, 2, 4)
    ensures forall i :: 0 <= i < 4 ==> s[i] < 4
    ensures LINE[s[0]] != LINE[s[1]] && LINE[s[2]] != LINE[s[3]]
  {
    FourDifferent(s);
    assert Coord(LINE, s, 0, 0) <= Coord(LINE, s, 2, 0) && Coord(LINE, s, 0, 0) <= Coord(LINE, s, 3, 0);
    assert Coord(LINE, s, 1, 0) <= Coord(LINE, s, 2, 0) && Coord(LINE, s, 1, 0) <= Coord(LINE, s, 3, 0);
  }

  lemma TwoSparse(pts: seq<Point>, s: seq<nat>, off: nat)
    requires off + 2 <= |s| && s[off] < |pts| && s[off + 1] < |pts| && pts[s[off]] != pts[s[off + 1]]
    ensures Sparse(pts, s, off, 2, 1)
  {
    var a, b := s[off], s[off + 1];
    assert s[off..off + 2] == [a, b];
    forall m: multiset<nat> | m <= multiset([a, b]) && Coincide(pts, m) ensures |m| <= 1 {
      if a in m {
        assert b !in m;
        assert m == multiset{a};
      } else {
        assert m <= multiset{b};
        assert m == multiset{b} || m == multiset{};
      }
    }
  }

  const LINE_BOX := Rect([0.0], [10.0])

  lemma LineFits()
    ensures Fit(LINE, ORDER, 1) && IsBox(LINE_BOX, 1) && Holds(LINE, ORDER, 0, 4, LINE_BOX)
  {
  }

  /** The cell of all four is their tight box. */
  lemma LineNotShrunk(t: Rect)
    requires Tight(LINE, ORDER, 0, 4, 1, t)
    ensures !Shrinks(LINE_BOX, t, 1)
  {
    assert MinOf(LINE, ORDER, 0, 1, 0) == 0.0 && MaxOf(LINE, ORDER, 0, 1, 0) == 0.0;
    assert MinOf(LINE, ORDER, 0, 2, 0) == 0.0 && MaxOf(LINE, ORDER, 0, 2, 0) == 5.0;
    assert MinOf(LINE, ORDER, 0, 3, 0) == 0.0 && MaxOf(LINE, ORDER, 0, 3, 0) == 5.0;
    assert t.lo == LINE_BOX.lo && t.hi == LINE_BOX.hi;
    assert LongestTo(t, 0) == 0.0 && LongestTo(t, 1) == 10.0;
    assert LargeGaps(LINE_BOX, t, 10.0, 0) == 0;
  }

  lemma LineHalved(s: seq<nat>, cd: nat, cv: real)
    requires Permuted(ORDER, s, 0, 4) && Splits(LINE, s, 0, 4, LINE_BOX, cd, cv, 2)
    ensures |s| == 4 && cd == 0 && 0.0 <= cv <= 10.0 && Sparse(LINE, s, 0, 2, 1)
    ensures s[2] < 4 && s[3] < 4 && LINE[s[2]] != LINE[s[3]]
  {
    assert s[0..4] == s && ORDER[0..4] == ORDER;
    HalvesDiffer(s, cv);
    TwoSparse(LINE, s, 0);
  }

  lemma UpperAsItWas(s1: seq<nat>, s2: seq<nat>)
    requires |s1| == |s2| == 4 && Permuted(s1, s2, 0, 2) && s1[2] < 4 && s1[3] < 4 && LINE[s1[2]] != LINE[s1[3]]
    ensures Sparse(LINE, s2, 2, 2, 1)
  {
    assert s2[2..][0] == s1[2..][0] && s2[2..][1] == s1[2..][1];
    TwoSparse(LINE, s2, 2);
  }

  /** Coinciding points need not be fatal: here rbd_tree with buckets of one point does not shrink, halves the
      points between the two that coincide, and can build both halves. */
  method CoincidingPointsSplit() returns (pidx: array<nat>, shrink: bool, nLo: nat, t: Tree)
    ensures fresh(pidx) && !Sparse(LINE, ORDER, 0, 4, 1) && !shrink && nLo == 2
    ensures Built(t, LINE, pidx[..], 1, LINE_BOX, 0) && Size(t) == 4 && Buckets(t, 1)
  {
    hide Permuted, Fit, Splits, Holds, Built, Sparse, Tight, Shrinks, Buckets, Hollow, Alternates, Plain, Pulled, Grown, CutBy, Bucket, Settled, LongestTo;
    LineNotSparse();
    LineFits();
    pidx := new nat[4](i => i);
    assert pidx[..] == ORDER;
    var b := LINE_BOX;
    var inner := new OrthRect(Rect([], []));
    ghost var tight;
    shrink, tight := SelectDecomp(Simple, LINE, pidx, 0, 4, 1, b, inner);
    LineNotShrunk(tight);
    var cd, cv;
    cd, cv, nLo := MedianRule(LINE, pidx, 0, 4, 1, b);
    ghost var s1 := pidx[..];
    HoldsPermuted(LINE, ORDER, s1, 0, 4, 1, b);
    SplitHolds(LINE, s1, 0, 4, 1, b, cd, cv, 2);
    LineHalved(s1, cd, cv);
    var loBox := new OrthRect(WithSide(b, 0, 0.0, cv));
    var hiBox := new OrthRect(WithSide(b, 0, cv, 10.0));
    assert pidx[..] == s1;
    var lo := RbdTree(LINE, pidx, 0, 2, 1, 1, loBox, Standard, Simple, false);
    ghost var s2 := pidx[..];
    UpperHalf(LINE, s1, s2, 0, 4, 2, WithSide(b, 0, cv, 10.0));
    UpperAsItWas(s1, s2);
    var hi := RbdTree(LINE, pidx, 2, 2, 1, 1, hiBox, Standard, Simple, false);
    ghost var s3 := pidx[..];
    SamePermuted(s2, 0, 4);
    SamePermuted(s2, 0, 2);
    Stages(s2, s2, s2, s3, 0, 2, 4);
    SplitBuilt(LINE, s2, s3, 1, b, 0, 0, cv, lo, hi);
    t := Split(0, cv, 0.0, 10.0, lo, hi);
    SplitShape(t, 1);
  }
}
