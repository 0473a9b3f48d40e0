// What the splitting and shrinking rules promise, in terms of a cell and of the points in it.
module CellRules {
  import opened Geometry
  import opened PointSplit

  /** ANNsplitRule, without the rules that are not modelled. */
  datatype SplitRule = Standard | SlidingMidpoint

  /** ANNshrinkRule: ANN_BD_NONE, and ANN_BD_SIMPLE, which ANN_BD_SUGGEST stands for. */
  datatype ShrinkRule = Never | Simple

  /** The length of a side. */
  function Length(b: Rect, d: nat): real
    requires d < |b.lo| && d < |b.hi|
  {
    b.hi[d] - b.lo[d]
  }

  /** Side d is among the longest, or nearly so. */
  predicate Long(b: Rect, d: nat, dim: nat)
    requires dim <= |b.lo| && dim <= |b.hi|
  {
    d < dim && forall e: nat :: e < dim ==> Length(b, d) >= 0.999 * Length(b, e)
  }

  /** How far m is from half of n. */
  function FromHalf(m: int, n: nat): nat { if m < n / 2 then n / 2 - m else m - n / 2 }

  ghost predicate Attained(pts: seq<Point>, m: multiset<nat>, d: nat, c: real) {
    exists x: nat :: x in m && x < |pts| && d < |pts[x]| && pts[x][d] == c
  }

  /** The least box that holds the points m. */
  ghost predicate Enclosing(pts: seq<Point>, m: multiset<nat>, dim: nat, t: Rect) {
    && |t.lo| == |t.hi| == dim
    && (forall x: nat :: x in m ==> x < |pts| && |pts[x]| == dim && Inside(t, pts[x]))
    && forall d: nat :: d < dim ==> Attained(pts, m, d, t.lo[d]) && Attained(pts, m, d, t.hi[d])
  }

  /** The points on either side of a cut; those on it may go either way. */
  ghost predicate Parts(pts: seq<Point>, m: multiset<nat>, lo: multiset<nat>, hi: multiset<nat>, cd: nat, cv: real) {
    && m == lo + hi && |lo| >= 1 && |hi| >= 1
    && (forall x: nat :: x in lo && x < |pts| && cd < |pts[x]| ==> pts[x][cd] <= cv)
    && (forall x: nat :: x in hi && x < |pts| && cd < |pts[x]| ==> pts[x][cd] >= cv)
  }

  /** The median rule cuts the dimension of the greatest spread half way between the two middle points. */
  ghost predicate MedianCut(pts: seq<Point>, t: Rect, m: multiset<nat>, lo: multiset<nat>, hi: multiset<nat>, dim: nat, cd: nat, cv: real)
    requires |t.lo| == |t.hi| == dim && cd < dim
  {
    && |lo| == |m| / 2 && (forall d: nat :: d < dim ==> Length(t, d) <= Length(t, cd))
    && exists tl, th :: Enclosing(pts, lo, dim, tl) && Enclosing(pts, hi, dim, th) && cv == (tl.hi[cd] + th.lo[cd]) / 2.0
  }

  /** The sliding midpoint rule cuts a longest side of the cell, that with the greatest spread, in the middle.  If
      all points lie on one side, the cut slides to the nearest, which is then alone; if not, no other choice for the
      points on the cut comes closer to half of them. */
  ghost predicate MidpointCut(pts: seq<Point>, box: Rect, t: Rect, m: multiset<nat>, lo: multiset<nat>, hi: multiset<nat>, dim: nat, cd: nat, cv: real)
    requires |t.lo| == |t.hi| == |box.lo| == |box.hi| == dim && cd < dim
  {
    var mid := (box.lo[cd] + box.hi[cd]) / 2.0;
    && Long(box, cd, dim) && (forall d: nat :: Long(box, d, dim) ==> Length(t, d) <= Length(t, cd))
    && (mid < t.lo[cd] ==> cv == t.lo[cd] && |lo| == 1)
    && (mid > t.hi[cd] ==> cv == t.hi[cd] && |hi| == 1)
    && (t.lo[cd] <= mid <= t.hi[cd] ==> cv == mid)
    && (t.lo[cd] <= mid <= t.hi[cd] ==>
         forall lo', hi' :: Parts(pts, m, lo', hi', cd, cv) ==> FromHalf(|lo|, |m|) <= FromHalf(|lo'|, |m|))
  }

  ghost predicate CutAs(rule: SplitRule, pts: seq<Point>, box: Rect, t: Rect, m: multiset<nat>, lo: multiset<nat>, hi: multiset<nat>,
                        dim: nat, cd: nat, cv: real)
    requires |t.lo| == |t.hi| == |box.lo| == |box.hi| == dim && cd < dim
  {
    match rule
    case Standard => MedianCut(pts, t, m, lo, hi, dim, cd, cv)
    case SlidingMidpoint => MidpointCut(pts, box, t, m, lo, hi, dim, cd, cv)
  }

  /** The cut that a rule makes through the cell of the points m. */
  ghost predicate CutBy(rule: SplitRule, pts: seq<Point>, m: multiset<nat>, lo: multiset<nat>, hi: multiset<nat>, dim: nat,
                        box: Rect, cd: nat, cv: real) {
    && |box.lo| == |box.hi| == dim && cd < dim && Parts(pts, m, lo, hi, cd, cv)
    && exists t :: Enclosing(pts, m, dim, t) && CutAs(rule, pts, box, t, m, lo, hi, dim, cd, cv)
  }

  // ---------- shrinking ----------

  /** From the box t out to the side of the cell. */
  function SideGap(box: Rect, t: Rect, d: nat, upper: bool): real
    requires d < |box.lo| && d < |box.hi| && d < |t.lo| && d < |t.hi|
  {
    if upper then box.hi[d] - t.hi[d] else t.lo[d] - box.lo[d]
  }

  /** The gap is at least half as long as any side of t. */
  predicate LargeSide(box: Rect, t: Rect, dim: nat, d: nat, upper: bool)
    requires |box.lo| == |box.hi| == |t.lo| == |t.hi| == dim
  {
    d < dim && forall e: nat :: e < dim ==> 2.0 * SideGap(box, t, d, upper) >= Length(t, e)
  }

  /** At least two sides of the cell are far from the points. */
  ghost predicate TwoLarge(box: Rect, t: Rect, dim: nat)
    requires |box.lo| == |box.hi| == |t.lo| == |t.hi| == dim
  {
    exists d: nat, u, e: nat, v :: LargeSide(box, t, dim, d, u) && LargeSide(box, t, dim, e, v) && (d != e || u != v)
  }

  /** The cell with just those sides moved in to the points. */
  predicate MovedIn(r: Rect, box: Rect, t: Rect, dim: nat)
    requires |box.lo| == |box.hi| == |t.lo| == |t.hi| == dim
  {
    && |r.lo| == |r.hi| == dim
    && (forall d: nat :: d < dim ==> r.hi[d] == if LargeSide(box, t, dim, d, true) then t.hi[d] else box.hi[d])
    && (forall d: nat :: d < dim ==> r.lo[d] == if LargeSide(box, t, dim, d, false) then t.lo[d] else box.lo[d])
  }

  /** A cell that is not shrunk. */
  ghost predicate Stays(rule: ShrinkRule, pts: seq<Point>, m: multiset<nat>, dim: nat, box: Rect)
    requires |box.lo| == |box.hi| == dim
  {
    rule.Simple? ==> exists t :: Enclosing(pts, m, dim, t) && !TwoLarge(box, t, dim)
  }

  /** A cell that is shrunk to r. */
  ghost predicate ShrinksTo(rule: ShrinkRule, pts: seq<Point>, m: multiset<nat>, dim: nat, box: Rect, r: Rect)
    requires |box.lo| == |box.hi| == dim
  {
    rule.Simple? && exists t :: Enclosing(pts, m, dim, t) && TwoLarge(box, t, dim) && MovedIn(r, box, t, dim)
  }

  /** There is one such box only, so that it cannot both stay and be shrunk. */
  lemma EnclosingUnique(pts: seq<Point>, m: multiset<nat>, dim: nat, t: Rect, t': Rect)
    requires Enclosing(pts, m, dim, t) && Enclosing(pts, m, dim, t')
    ensures t == t'
  {
    assert t.lo == t'.lo && t.hi == t'.hi;
  }

  // ---------- stretches of the index array ----------

  ghost function TightBox(pts: seq<Point>, s: seq<nat>, off: nat, n: nat, dim: nat): (t: Rect)
    requires n >= 1
    ensures Tight(pts, s, off, n, dim, t)
  {
    Rect(seq(dim, d requires 0 <= d < dim => MinOf(pts, s, off, n, d)), seq(dim, d requires 0 <= d < dim => MaxOf(pts, s, off, n, d)))
  }

  lemma InBucket(s: seq<nat>, off: nat, n: nat, i: nat)
    requires off <= i < off + n <= |s|
    ensures s[i] in Bucket(s, off, n)
  {
    assert s[off..off + n][i - off] == s[i];
  }

  lemma FromBucket(s: seq<nat>, off: nat, n: nat, x: nat) returns (i: nat)
    requires off + n <= |s| && x in Bucket(s, off, n)
    ensures off <= i < off + n && s[i] == x
  {
    var j :| 0 <= j < n && s[off..off + n][j] == x;
    i := off + j;
  }

  /** The tight box of a stretch is the least box of its points. */
  lemma TightEncloses(pts: seq<Point>, s: seq<nat>, off: nat, n: nat, dim: nat, t: Rect)
    requires n >= 1 && off + n <= |s| && Fit(pts, s, dim) && Tight(pts, s, off, n, dim, t)
    ensures Enclosing(pts, Bucket(s, off, n), dim, t)
  {
    hide MinOf, MaxOf, Bucket, Inside;
    TightLeast(pts, s, off, n, dim, t, t);
    forall x: nat | x in Bucket(s, off, n) ensures x < |pts| && |pts[x]| == dim && Inside(t, pts[x]) {
      var i := FromBucket(s, off, n, x);
    }
    forall d: nat | d < dim ensures Attained(pts, Bucket(s, off, n), d, t.lo[d]) && Attained(pts, Bucket(s, off, n), d, t.hi[d]) {
      var i, j := MinAttained(pts, s, off, n, d);
      InBucket(s, off, n, i);
      InBucket(s, off, n, j);
      CoordAt(pts, s, i, d, dim);
      CoordAt(pts, s, j, d, dim);
    }
  }

  lemma BucketSplit(s: seq<nat>, off: nat, n: nat, m: nat)
    requires m <= n && off + n <= |s|
    ensures Bucket(s, off, n) == Bucket(s, off, m) + Bucket(s, off + m, n - m)
    ensures |Bucket(s, off, n)| == n
  {
    assert s[off..off + n] == s[off..off + m] + s[off + m..off + n];
    assert s[off + m..off + m + (n - m)] == s[off + m..off + n];
  }

  /** The two parts of a divided stretch. */
  lemma SplitParted(pts: seq<Point>, s: seq<nat>, off: nat, n: nat, dim: nat, cd: nat, cv: real, nLo: nat)
    requires off + n <= |s| && Fit(pts, s, dim) && cd < dim && 1 <= nLo < n
    requires AllLe(pts, s, cd, cv, off, off + nLo) && AllGe(pts, s, cd, cv, off + nLo, off + n)
    ensures Parts(pts, Bucket(s, off, n), Bucket(s, off, nLo), Bucket(s, off + nLo, n - nLo), cd, cv)
  {
    hide Bucket, Coord;
    BucketSplit(s, off, n, nLo);
    BucketSplit(s, off, nLo, nLo);
    BucketSplit(s, off + nLo, n - nLo, n - nLo);
    forall x: nat | x in Bucket(s, off, nLo) && x < |pts| && cd < |pts[x]| ensures pts[x][cd] <= cv {
      var i := FromBucket(s, off, nLo, x);
      CoordAt(pts, s, i, cd, dim);
    }
    forall x: nat | x in Bucket(s, off + nLo, n - nLo) && x < |pts| && cd < |pts[x]| ensures pts[x][cd] >= cv {
      var i := FromBucket(s, off + nLo, n - nLo, x);
      CoordAt(pts, s, i, cd, dim);
    }
  }

  /** However the points on the cut are dealt out, those below it and those above it go to their sides. */
  lemma PartsBetween(pts: seq<Point>, s: seq<nat>, off: nat, n: nat, dim: nat, cd: nat, cv: real, br1: nat, br2: nat,
                     lo: multiset<nat>, hi: multiset<nat>)
    requires off + n <= |s| && Fit(pts, s, dim) && cd < dim && PlaneParts(pts, s, off, n, cd, cv, br1, br2)
    requires Parts(pts, Bucket(s, off, n), lo, hi, cd, cv)
    ensures br1 <= |lo| <= br2 && |lo| + |hi| == n && 1 <= |lo| < n
  {
    hide Bucket, Coord;
    var below, above := Bucket(s, off, br1), Bucket(s, off + br2, n - br2);
    BucketSplit(s, off, n, br1);
    BucketSplit(s, off, n, br2);
    BucketSplit(s, off, br1, br1);
    BucketSplit(s, off + br2, n - br2, n - br2);
    forall x: nat ensures below[x] <= lo[x] {
      if x in below {
        var i := FromBucket(s, off, br1, x);
        CoordAt(pts, s, i, cd, dim);
        FitAt(pts, s, dim, i);
        assert x !in hi && Bucket(s, off, n)[x] == lo[x] + hi[x];
      }
    }
    forall x: nat ensures above[x] <= hi[x] {
      if x in above {
        var i := FromBucket(s, off + br2, n - br2, x);
        CoordAt(pts, s, i, cd, dim);
        FitAt(pts, s, dim, i);
        assert x !in lo && Bucket(s, off, n)[x] == lo[x] + hi[x];
      }
    }
    SmallerCount(below, lo);
    SmallerCount(above, hi);
  }

  lemma FitAt(pts: seq<Point>, s: seq<nat>, dim: nat, i: nat)
    requires Fit(pts, s, dim) && i < |s|
    ensures s[i] < |pts| && |pts[s[i]]| == dim
  {
  }
}
