// Two splitting rules (kd_split.cpp): the median rule and the sliding midpoint rule, which is the default.
module KdSplit {
  import opened Geometry
  import opened PointSplit
  import opened CellRules

  /** The cut goes through the box, and both sides get points, on their side of the cut. */
  ghost predicate Splits(pts: seq<Point>, s: seq<nat>, off: nat, n: nat, box: Rect, cd: nat, cv: real, nLo: nat) {
    && cd < |box.lo| == |box.hi| && box.lo[cd] <= cv <= box.hi[cd] && 1 <= nLo < n
    && AllLe(pts, s, cd, cv, off, off + nLo) && AllGe(pts, s, cd, cv, off + nLo, off + n)
  }

  /** kd_split: half of the points on either side, along a dimension of greatest spread. */
  method MedianRule(pts: seq<Point>, pidx: array<nat>, off: nat, n: nat, dim: nat, ghost box: Rect)
    returns (cd: nat, cv: real, nLo: nat)
    requires off + n <= pidx.Length && Fit(pts, pidx[..], dim) && dim >= 1 && n >= 2 && Holds(pts, pidx[..], off, n, box)
    modifies pidx
    ensures Permuted(old(pidx[..]), pidx[..], off, off + n) && Fit(pts, pidx[..], dim)
    ensures Splits(pts, pidx[..], off, n, box, cd, cv, nLo) && nLo == n / 2
    ensures |box.lo| == |box.hi| == dim ==>
      CutBy(Standard, pts, Bucket(pidx[..], off, n), Bucket(pidx[..], off, nLo), Bucket(pidx[..], off + nLo, n - nLo), dim, box, cd, cv)
  {
    hide Permuted, Divided, Fit, Splits, MinOf, MaxOf, Holds, Coord, CutBy, Bucket;
    ghost var s := pidx[..];
    cd := MaxSpread(pts, pidx, off, n, dim);
    nLo := n / 2;
    cv := MedianSplit(pts, pidx, off, n, dim, cd, nLo);
    ghost var t := pidx[..];
    MedianSplits(pts, s, t, off, n, dim, box, cd, cv, nLo);
    forall d: nat | d < dim ensures Extent(pts, t, off, n, d) <= Extent(pts, t, off, n, cd) {
      ExtentPermuted(pts, s, t, off, n, d);
      ExtentPermuted(pts, s, t, off, n, cd);
      assert Extent(pts, s, off, n, d) <= Extent(pts, s, off, n, cd);
    }
    if |box.lo| == |box.hi| == dim { MedianCuts(pts, t, off, n, dim, box, cd, cv, nLo); }
  }

  lemma TightLengths(pts: seq<Point>, s: seq<nat>, off: nat, n: nat, dim: nat, t: Rect)
    requires n >= 1 && Tight(pts, s, off, n, dim, t)
    ensures forall d: nat :: d < dim ==> Length(t, d) == Extent(pts, s, off, n, d)
  {
    hide MinOf, MaxOf;
  }

  lemma MedianCuts(pts: seq<Point>, t: seq<nat>, off: nat, n: nat, dim: nat, box: Rect, cd: nat, cv: real, nLo: nat)
    requires n >= 2 && off + n <= |t| && Fit(pts, t, dim) && |box.lo| == |box.hi| == dim && cd < dim && nLo == n / 2
    requires Splits(pts, t, off, n, box, cd, cv, nLo)
    requires Divided(pts, t, off, off + nLo - 1, off + n, cd) && Divided(pts, t, off, off + nLo + 1, off + n, cd)
    requires cv == (Coord(pts, t, off + nLo - 1, cd) + Coord(pts, t, off + nLo, cd)) / 2.0
    requires forall d: nat :: d < dim ==> Extent(pts, t, off, n, d) <= Extent(pts, t, off, n, cd)
    ensures CutBy(Standard, pts, Bucket(t, off, n), Bucket(t, off, nLo), Bucket(t, off + nLo, n - nLo), dim, box, cd, cv)
  {
    hide Coord, Fit, Bucket, Parts, Enclosing, MinOf, MaxOf;
    var b, l, h := TightBox(pts, t, off, n, dim), TightBox(pts, t, off, nLo, dim), TightBox(pts, t, off + nLo, n - nLo, dim);
    TightEncloses(pts, t, off, n, dim, b);
    TightEncloses(pts, t, off, nLo, dim, l);
    TightEncloses(pts, t, off + nLo, n - nLo, dim, h);
    SplitParted(pts, t, off, n, dim, cd, cv, nLo);
    BucketSplit(t, off, n, nLo);
    BucketSplit(t, off, nLo, nLo);
    var i, j := MinAttained(pts, t, off, nLo, cd);
    MinBelow(pts, t, off, nLo, cd, off + nLo - 1);
    assert j < off + nLo - 1 ==> Coord(pts, t, j, cd) <= Coord(pts, t, off + nLo - 1, cd);
    i, j := MinAttained(pts, t, off + nLo, n - nLo, cd);
    MinBelow(pts, t, off + nLo, n - nLo, cd, off + nLo);
    assert i > off + nLo ==> Coord(pts, t, off + nLo, cd) <= Coord(pts, t, i, cd);
    TightLengths(pts, t, off, n, dim, b);
    assert MedianCut(pts, b, Bucket(t, off, n), Bucket(t, off, nLo), Bucket(t, off + nLo, n - nLo), dim, cd, cv);
  }

  /** The spread of the points along a dimension. */
  ghost function Extent(pts: seq<Point>, s: seq<nat>, off: nat, n: nat, d: nat): real
    requires n >= 1
  {
    MaxOf(pts, s, off, n, d) - MinOf(pts, s, off, n, d)
  }

  lemma MedianSplits(pts: seq<Point>, s: seq<nat>, t: seq<nat>, off: nat, n: nat, dim: nat, box: Rect, cd: nat, cv: real, nLo: nat)
    requires off + n <= |s| && Permuted(s, t, off, off + n) && Fit(pts, s, dim) && Fit(pts, t, dim) && Holds(pts, s, off, n, box)
    requires cd < dim && 1 <= nLo < n
    requires Divided(pts, t, off, off + nLo - 1, off + n, cd) && Divided(pts, t, off, off + nLo, off + n, cd)
    requires Divided(pts, t, off, off + nLo + 1, off + n, cd)
    requires Coord(pts, t, off + nLo - 1, cd) <= cv <= Coord(pts, t, off + nLo, cd)
    ensures Splits(pts, t, off, n, box, cd, cv, nLo)
  {
    hide Permuted;
    OriginLength(s, t, off, off + n);
    HoldsPermuted(pts, s, t, off, n, dim, box);
    var x, y := off + nLo - 1, off + nLo;
    assert Inside(box, pts[t[x]]) && Inside(box, pts[t[y]]);
    CoordAt(pts, t, x, cd, dim);
    CoordAt(pts, t, y, cd, dim);
    hide Coord;
    forall i: nat | off <= i < y ensures Coord(pts, t, i, cd) <= cv {
      assert i < x ==> Coord(pts, t, i, cd) <= Coord(pts, t, x, cd);
    }
    forall i: nat | y <= i < off + n ensures Coord(pts, t, i, cd) >= cv {
      assert i > y ==> Coord(pts, t, y, cd) <= Coord(pts, t, i, cd);
    }
  }

  /** What a box holds does not depend on the order. */
  lemma HoldsPermuted(pts: seq<Point>, s: seq<nat>, t: seq<nat>, off: nat, n: nat, dim: nat, box: Rect)
    requires off + n <= |s| && Permuted(s, t, off, off + n) && Fit(pts, s, dim) && Holds(pts, s, off, n, box)
    ensures Holds(pts, t, off, n, box)
  {
    hide Permuted, Inside;
    OriginLength(s, t, off, off + n);
    forall i: nat | off <= i < off + n && t[i] < |pts| ensures Inside(box, pts[t[i]]) {
      var j := Origin(s, t, off, off + n, i);
    }
  }

  /** A thousandth. */
  const ERR: real := 0.001

  /** The dimension to cut: of the longest sides, the one along which the points spread most. */
  method LongestSide(pts: seq<Point>, pidx: array<nat>, off: nat, n: nat, dim: nat, bnds: Rect) returns (cd: nat)
    requires off + n <= pidx.Length && Fit(pts, pidx[..], dim) && dim >= 1 && n >= 1 && IsBox(bnds, dim)
    ensures Long(bnds, cd, dim)
    ensures forall d: nat :: Long(bnds, d, dim) ==> Extent(pts, pidx[..], off, n, d) <= Extent(pts, pidx[..], off, n, cd)
  {
    hide MinOf, MaxOf, Fit;
    var maxLength := Length(bnds, 0);
    ghost var longest := 0;
    for d := 1 to dim
      invariant longest < dim && maxLength == Length(bnds, longest) && forall e: nat :: e < d ==> Length(bnds, e) <= maxLength
    {
      if Length(bnds, d) > maxLength {
        maxLength := Length(bnds, d);
        longest := d;
      }
    }
    var maxSpread := -1.0;
    cd := 0;
    for d := 0 to dim
      invariant maxSpread == -1.0 ==> d <= longest
      invariant maxSpread != -1.0 ==> maxSpread == Extent(pts, pidx[..], off, n, cd) && Long(bnds, cd, dim)
      invariant forall e: nat :: e < d && Long(bnds, e, dim) ==> Extent(pts, pidx[..], off, n, e) <= maxSpread
      invariant maxSpread >= -1.0
    {
      if Length(bnds, d) >= (1.0 - ERR) * maxLength {
        var spr := Spread(pts, pidx, off, n, dim, d);
        if spr > maxSpread {
          maxSpread := spr;
          cd := d;
        }
      }
    }
  }

  /** Where the cut slides to. */
  function Slide(ideal: real, min: real, max: real): real {
    if ideal < min then min else if ideal > max then max else ideal
  }

  /** How many points go below the cut, given how many are below it and how many are not above it. */
  function Share(ideal: real, min: real, max: real, n: nat, br1: nat, br2: nat): nat
    requires n >= 1
  {
    if ideal < min then 1
    else if ideal > max then n - 1
    else if br1 > n / 2 then br1
    else if br2 < n / 2 then br2
    else n / 2
  }

  /** sl_midpt_split: cut a longest side in the middle, sliding to the points if they are all on one side. */
  method SlidingMidpointRule(pts: seq<Point>, pidx: array<nat>, off: nat, n: nat, dim: nat, bnds: Rect)
    returns (cd: nat, cv: real, nLo: nat)
    requires off + n <= pidx.Length && Fit(pts, pidx[..], dim) && dim >= 1 && n >= 2
    requires IsBox(bnds, dim) && Holds(pts, pidx[..], off, n, bnds)
    modifies pidx
    ensures Permuted(old(pidx[..]), pidx[..], off, off + n) && Fit(pts, pidx[..], dim)
    ensures Splits(pts, pidx[..], off, n, bnds, cd, cv, nLo) && nLo <= n
    ensures CutBy(SlidingMidpoint, pts, Bucket(pidx[..], off, n), Bucket(pidx[..], off, nLo), Bucket(pidx[..], off + nLo, n - nLo), dim, bnds, cd, cv)
  {
    hide Permuted, Fit, Splits, MinOf, MaxOf, Holds, Coord, PlaneParts, Long, CutBy, Bucket;
    ghost var s := pidx[..];
    cd := LongestSide(pts, pidx, off, n, dim, bnds);
    LongBelow(bnds, cd, dim);
    var ideal := (bnds.lo[cd] + bnds.hi[cd]) / 2.0;
    var min, max := MinMax(pts, pidx, off, n, dim, cd);
    cv := Slide(ideal, min, max);
    var br1, br2 := PlaneSplit(pts, pidx, off, n, dim, cd, cv);
    nLo := Share(ideal, min, max, n, br1, br2);
    ghost var t := pidx[..];
    forall d: nat | Long(bnds, d, dim) ensures Extent(pts, t, off, n, d) <= Extent(pts, t, off, n, cd) {
      ExtentPermuted(pts, s, t, off, n, d);
      ExtentPermuted(pts, s, t, off, n, cd);
      assert Extent(pts, s, off, n, d) <= Extent(pts, s, off, n, cd);
    }
    ExtentPermuted(pts, s, t, off, n, cd);
    HoldsPermuted(pts, s, t, off, n, dim, bnds);
    OriginLength(s, t, off, off + n);
    SlidingSplits(pts, t, off, n, dim, bnds, cd, ideal, br1, br2);
    ghost var b := TightBox(pts, t, off, n, dim);
    MinBelow(pts, t, off, n, cd, off);
    TightLengths(pts, t, off, n, dim, b);
    forall d: nat | Long(bnds, d, dim) ensures d < dim && Length(b, d) <= Length(b, cd) { LongBelow(bnds, d, dim); }
    MidpointCuts(pts, t, off, n, dim, bnds, cd, br1, br2, ideal, b, cv, nLo);
  }

  lemma EvenShare(ideal: real, min: real, max: real, n: nat, br1: nat, br2: nat, m: nat)
    requires n >= 2 && min <= ideal <= max && br1 <= m <= br2
    ensures FromHalf(Share(ideal, min, max, n, br1, br2), n) <= FromHalf(m, n)
  {
  }

  lemma MidpointCuts(pts: seq<Point>, t: seq<nat>, off: nat, n: nat, dim: nat, bnds: Rect, cd: nat, br1: nat, br2: nat,
                     ideal: real, b: Rect, cv: real, nLo: nat)
    requires n >= 2 && off + n <= |t| && Fit(pts, t, dim) && |bnds.lo| == |bnds.hi| == dim && Long(bnds, cd, dim) && cd < dim
    requires Tight(pts, t, off, n, dim, b) && |b.lo| == |b.hi| == dim && b.lo[cd] <= b.hi[cd]
    requires forall d: nat :: Long(bnds, d, dim) ==> d < dim && Length(b, d) <= Length(b, cd)
    requires ideal == (bnds.lo[cd] + bnds.hi[cd]) / 2.0 && cv == Slide(ideal, b.lo[cd], b.hi[cd])
    requires nLo == Share(ideal, b.lo[cd], b.hi[cd], n, br1, br2) && PlaneParts(pts, t, off, n, cd, cv, br1, br2)
    requires Splits(pts, t, off, n, bnds, cd, cv, nLo)
    ensures nLo <= n && CutBy(SlidingMidpoint, pts, Bucket(t, off, n), Bucket(t, off, nLo), Bucket(t, off + nLo, n - nLo), dim, bnds, cd, cv)
  {
    hide Coord, Fit, Bucket, Parts, Enclosing, MinOf, MaxOf, PlaneParts, Long, Tight, Share, FromHalf;
    TightEncloses(pts, t, off, n, dim, b);
    SplitParted(pts, t, off, n, dim, cd, cv, nLo);
    BucketSplit(t, off, n, nLo);
    BucketSplit(t, off, nLo, nLo);
    BucketSplit(t, off + nLo, n - nLo, n - nLo);
    var m, lo, hi := Bucket(t, off, n), Bucket(t, off, nLo), Bucket(t, off + nLo, n - nLo);
    forall lo', hi' | Parts(pts, m, lo', hi', cd, cv) && b.lo[cd] <= ideal <= b.hi[cd] ensures FromHalf(|lo|, |m|) <= FromHalf(|lo'|, |m|) {
      PartsBetween(pts, t, off, n, dim, cd, cv, br1, br2, lo', hi');
      EvenShare(ideal, b.lo[cd], b.hi[cd], n, br1, br2, |lo'|);
    }
    Ends(ideal, b.lo[cd], b.hi[cd], n, br1, br2);
    assert MidpointCut(pts, bnds, b, m, lo, hi, dim, cd, cv);
  }

  lemma Ends(ideal: real, min: real, max: real, n: nat, br1: nat, br2: nat)
    requires n >= 2
    ensures ideal < min ==> Share(ideal, min, max, n, br1, br2) == 1
    ensures ideal > max >= min ==> Share(ideal, min, max, n, br1, br2) == n - 1
  {
  }

  lemma LongBelow(b: Rect, d: nat, dim: nat)
    requires dim <= |b.lo| && dim <= |b.hi| && Long(b, d, dim)
    ensures d < dim
  {
  }

  lemma SlidingSplits(pts: seq<Point>, t: seq<nat>, off: nat, n: nat, dim: nat, bnds: Rect, cd: nat, ideal: real, br1: nat, br2: nat)
    requires off + n <= |t| && Fit(pts, t, dim) && n >= 2 && cd < dim && IsBox(bnds, dim) && Holds(pts, t, off, n, bnds)
    requires ideal == (bnds.lo[cd] + bnds.hi[cd]) / 2.0
    requires PlaneParts(pts, t, off, n, cd, Slide(ideal, MinOf(pts, t, off, n, cd), MaxOf(pts, t, off, n, cd)), br1, br2)
    ensures var min, max := MinOf(pts, t, off, n, cd), MaxOf(pts, t, off, n, cd);
      Splits(pts, t, off, n, bnds, cd, Slide(ideal, min, max), Share(ideal, min, max, n, br1, br2))
  {
    hide MinOf, MaxOf;
    var min, max := MinOf(pts, t, off, n, cd), MaxOf(pts, t, off, n, cd);
    var i, j := MinAttained(pts, t, off, n, cd);
    CoordAt(pts, t, i, cd, dim);
    CoordAt(pts, t, j, cd, dim);
    assert Inside(bnds, pts[t[i]]) && Inside(bnds, pts[t[j]]);
    hide Coord;
    MinBelow(pts, t, off, n, cd, off);
    MinBelow(pts, t, off, n, cd, i);
    MinBelow(pts, t, off, n, cd, off + n - 1);
    forall k: nat | off <= k < off + n ensures min <= Coord(pts, t, k, cd) <= max { MinBelow(pts, t, off, n, cd, k); }
  }

  /** The rule that the caller chose. */
  method SplitBy(rule: SplitRule, pts: seq<Point>, pidx: array<nat>, off: nat, n: nat, dim: nat, bnds: Rect)
    returns (cd: nat, cv: real, nLo: nat)
    requires off + n <= pidx.Length && Fit(pts, pidx[..], dim) && dim >= 1 && n >= 2
    requires IsBox(bnds, dim) && Holds(pts, pidx[..], off, n, bnds)
    modifies pidx
    ensures Permuted(old(pidx[..]), pidx[..], off, off + n) && Fit(pts, pidx[..], dim)
    ensures Splits(pts, pidx[..], off, n, bnds, cd, cv, nLo) && nLo <= n
    ensures CutBy(rule, pts, Bucket(pidx[..], off, n), Bucket(pidx[..], off, nLo), Bucket(pidx[..], off + nLo, n - nLo), dim, bnds, cd, cv)
  {
    hide Permuted, Fit, Splits, Holds, CutBy, Bucket;
    match rule {
      case Standard => cd, cv, nLo := MedianRule(pts, pidx, off, n, dim, bnds);
      case SlidingMidpoint => cd, cv, nLo := SlidingMidpointRule(pts, pidx, off, n, dim, bnds);
    }
  }
}
