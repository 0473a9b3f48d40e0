// The splitting utilities of kd_util.cpp, which permute a stretch of the index array in place.
module PointSplit {
  import opened Geometry

  // ---------- stretches of the index array ----------

  /** All points have dim coordinates and all indices denote points. */
  predicate Fit(pts: seq<Point>, s: seq<nat>, dim: nat) {
    && (forall x: nat :: x < |pts| ==> |pts[x]| == dim)
    && (forall i: nat :: i < |s| ==> s[i] < |pts|)
  }

  /** PA: coordinate d of the point that entry i denotes; 0 where there is none. */
  function Coord(pts: seq<Point>, s: seq<nat>, i: nat, d: nat): real {
    if i < |s| && s[i] < |pts| && d < |pts[s[i]]| then pts[s[i]][d] else 0.0
  }

  /** t is s with the entries in [a, b) permuted. */
  ghost predicate Permuted(s: seq<nat>, t: seq<nat>, a: nat, b: nat)
    requires a <= b <= |s|
  {
    |t| == |s| && t[..a] == s[..a] && t[b..] == s[b..] && multiset(t[a..b]) == multiset(s[a..b])
  }

  /** The points of a stretch. */
  ghost function Bucket(s: seq<nat>, off: nat, n: nat): multiset<nat>
    requires off + n <= |s|
  {
    multiset(s[off..off + n])
  }

  lemma SmallerCount(a: multiset<nat>, b: multiset<nat>)
    requires a <= b
    ensures |a| <= |b|
  {
    assert b == a + (b - a);
  }

  function Swap(s: seq<nat>, i: nat, j: nat): seq<nat>
    requires i < |s| && j < |s|
  {
    s[i := s[j]][j := s[i]]
  }

  lemma SwapPermutes(s: seq<nat>, i: nat, j: nat, a: nat, b: nat)
    requires a <= i < b <= |s| && a <= j < b
    ensures Permuted(s, Swap(s, i, j), a, b)
  {
    var t := s[a..b];
    assert Swap(s, i, j)[a..b] == t[i - a := t[j - a]][j - a := t[i - a]];
  }

  lemma Trans(s: seq<nat>, t: seq<nat>, u: seq<nat>, a: nat, b: nat)
    requires a <= b <= |s| && Permuted(s, t, a, b) && Permuted(t, u, a, b)
    ensures Permuted(s, u, a, b)
  {
  }

  lemma Wider(s: seq<nat>, t: seq<nat>, a: nat, b: nat, c: nat, e: nat)
    requires c <= a <= b <= e <= |s| && Permuted(s, t, a, b)
    ensures Permuted(s, t, c, e)
  {
    assert s[c..e] == s[c..a] + s[a..b] + s[b..e];
    assert t[c..e] == t[c..a] + t[a..b] + t[b..e];
    assert s[c..a] == s[..a][c..] == t[..a][c..] == t[c..a];
    assert s[b..e] == s[b..][..e - b] == t[b..][..e - b] == t[b..e];
    assert t[..c] == t[..a][..c] == s[..a][..c] == s[..c];
    assert t[e..] == t[b..][e - b..] == s[b..][e - b..] == s[e..];
  }

  /** An entry of a permuted stretch comes from that stretch. */
  lemma Origin(s: seq<nat>, t: seq<nat>, a: nat, b: nat, i: nat) returns (j: nat)
    requires a <= b <= |s| && Permuted(s, t, a, b) && a <= i < b
    ensures a <= j < b && s[j] == t[i]
  {
    assert t[a..b][i - a] in multiset(s[a..b]);
    var k :| 0 <= k < b - a && s[a..b][k] == t[i];
    j := a + k;
  }

  lemma StillFit(pts: seq<Point>, s: seq<nat>, t: seq<nat>, a: nat, b: nat, dim: nat)
    requires a <= b <= |s| && Permuted(s, t, a, b) && Fit(pts, s, dim)
    ensures Fit(pts, t, dim)
  {
    forall i: nat | i < |t| ensures t[i] < |pts| {
      if a <= i < b {
        var j := Origin(s, t, a, b, i);
      } else if i < a {
        assert t[i] == t[..a][i] == s[i];
      } else {
        assert t[i] == t[b..][i - b] == s[i];
      }
    }
  }

  /** PASWAP */
  method PaSwap(pidx: array<nat>, i: nat, j: nat)
    requires i < pidx.Length && j < pidx.Length
    modifies pidx
    ensures pidx[..] == Swap(old(pidx[..]), i, j)
  {
    var tmp := pidx[i];
    pidx[i] := pidx[j];
    pidx[j] := tmp;
  }

  // ---------- partitioning ----------

  /** p holds of the entries of [a, b). */
  ghost predicate All(s: seq<nat>, a: int, b: int, p: nat -> bool)
    requires 0 <= a && b <= |s|
  {
    forall i: nat :: a <= i < b ==> p(s[i])
  }

  ghost predicate None(s: seq<nat>, a: int, b: int, p: nat -> bool)
    requires 0 <= a && b <= |s|
  {
    forall i: nat :: a <= i < b ==> !p(s[i])
  }

  /** low holds of just the entries of [a, b) before m. */
  ghost predicate Parted(s: seq<nat>, a: nat, m: nat, b: nat, low: nat -> bool)
    requires a <= m <= b <= |s|
  {
    All(s, a, m, low) && None(s, m, b, low)
  }

  /** An exchange takes both scans one further. */
  lemma Exchange(s: seq<nat>, a: nat, l: nat, r: nat, b: nat, low: nat -> bool)
    requires a <= l <= r < b <= |s| && All(s, a, l, low) && None(s, r + 1, b, low) && !low(s[l]) && low(s[r])
    ensures l < r && var t := Swap(s, l, r); All(t, a, l + 1, low) && None(t, r, b, low) && Permuted(s, t, a, b)
  {
    SwapPermutes(s, l, r, a, b);
  }

  /** Scans stop before they pass each other by more than one. */
  lemma Stops(s: seq<nat>, a: nat, l: int, r: int, b: nat, low: nat -> bool)
    requires a <= l <= r + 1 <= b <= |s| && All(s, a, l, low) && None(s, r + 1, b, low)
    ensures l < b && low(s[l]) ==> l <= r && All(s, a, l + 1, low)
    ensures r >= a && !low(s[r]) ==> l <= r && None(s, r, b, low)
  {
  }

  /** The exchange loop that annPlaneSplit runs twice and annBoxSplit once: scan up past the entries of
      which low holds, scan down past the others, and swap the two that stop the scans. */
  method Partition(pidx: array<nat>, a: nat, b: nat, low: nat -> bool) returns (m: nat)
    requires a <= b <= pidx.Length
    modifies pidx
    ensures a <= m <= b && Parted(pidx[..], a, m, b, low) && Permuted(old(pidx[..]), pidx[..], a, b)
  {
    hide Permuted, All, None, Swap, Parted;
    ghost var s := pidx[..];
    SamePermuted(s, a, b);
    var l: int, r: int := a, b - 1;
    Nothing(s, a, b, low);
    while true
      invariant a <= l <= r + 1 <= b && Permuted(s, pidx[..], a, b)
      invariant All(pidx[..], a, l, low) && None(pidx[..], r + 1, b, low)
      decreases r - l
    {
      ghost var t := pidx[..];
      while l < b && low(pidx[l])
        invariant a <= l <= r + 1 && All(t, a, l, low) && pidx[..] == t
      {
        assert t[l] == pidx[l];
        Stops(t, a, l, r, b, low);
        l := l + 1;
      }
      while r >= a && !low(pidx[r])
        invariant l <= r + 1 <= b && None(t, r + 1, b, low) && pidx[..] == t
      {
        assert t[r] == pidx[r];
        Stops(t, a, l, r, b, low);
        r := r - 1;
      }
      if l > r { break; }
      assert t[l] == pidx[l] && t[r] == pidx[r];
      Exchange(t, a, l, r, b, low);
      PaSwap(pidx, l, r);
      Trans(s, t, pidx[..], a, b);
      l, r := l + 1, r - 1;
    }
    m := l;
    ghost var u := pidx[..];
    assert Parted(u, a, m, b, low) by { PartedAt(u, a, m, b, low); }
  }

  lemma PartedAt(s: seq<nat>, a: nat, m: nat, b: nat, low: nat -> bool)
    requires a <= m <= b <= |s| && All(s, a, m, low) && None(s, m, b, low)
    ensures Parted(s, a, m, b, low)
  {
  }

  lemma Nothing(s: seq<nat>, a: nat, b: nat, p: nat -> bool)
    requires a <= b <= |s|
    ensures All(s, a, a, p) && None(s, b, b, p)
  {
  }

  lemma SamePermuted(s: seq<nat>, a: nat, b: nat)
    requires a <= b <= |s|
    ensures Permuted(s, s, a, b)
  {
  }

  /** What annPlaneSplit leaves: below, on and above the plane. */
  ghost predicate PlaneParts(pts: seq<Point>, s: seq<nat>, off: nat, n: nat, d: nat, cv: real, br1: nat, br2: nat)
  {
    && br1 <= br2 <= n
    && (forall i: nat :: off <= i < off + br1 ==> Coord(pts, s, i, d) < cv)
    && (forall i: nat :: off + br1 <= i < off + br2 ==> Coord(pts, s, i, d) == cv)
    && (forall i: nat :: off + br2 <= i < off + n ==> Coord(pts, s, i, d) > cv)
  }

  predicate Below(pts: seq<Point>, d: nat, cv: real, x: nat) { x < |pts| && d < |pts[x]| && pts[x][d] < cv }

  predicate AtMost(pts: seq<Point>, d: nat, cv: real, x: nat) { x < |pts| && d < |pts[x]| && pts[x][d] <= cv }

  /** annPlaneSplit */
  method PlaneSplit(pts: seq<Point>, pidx: array<nat>, off: nat, n: nat, dim: nat, d: nat, cv: real)
    returns (br1: nat, br2: nat)
    requires off + n <= pidx.Length && Fit(pts, pidx[..], dim) && d < dim
    modifies pidx
    ensures Permuted(old(pidx[..]), pidx[..], off, off + n) && Fit(pts, pidx[..], dim)
    ensures PlaneParts(pts, pidx[..], off, n, d, cv, br1, br2)
  {
    hide Permuted, Fit, PlaneParts, Parted, Coord, Below, AtMost;
    ghost var s := pidx[..];
    var less, most := (x: nat) => Below(pts, d, cv, x), (x: nat) => AtMost(pts, d, cv, x);
    var m1 := Partition(pidx, off, off + n, less);
    ghost var t := pidx[..];
    var m2 := Partition(pidx, m1, off + n, most);
    br1, br2 := m1 - off, m2 - off;
    PlaneDone(pts, s, t, pidx[..], off, n, dim, d, cv, m1, m2, less, most);
  }

  lemma PlaneDone(pts: seq<Point>, s: seq<nat>, t: seq<nat>, u: seq<nat>, off: nat, n: nat, dim: nat, d: nat, cv: real, m1: nat, m2: nat,
                  less: nat -> bool, most: nat -> bool)
    requires off <= m1 <= m2 <= off + n <= |s| == |t| == |u| && Fit(pts, s, dim) && d < dim
    requires forall x: nat :: (less(x) <==> Below(pts, d, cv, x)) && (most(x) <==> AtMost(pts, d, cv, x))
    requires Permuted(s, t, off, off + n) && Parted(t, off, m1, off + n, less)
    requires Permuted(t, u, m1, off + n) && Parted(u, m1, m2, off + n, most)
    ensures Permuted(s, u, off, off + n) && Fit(pts, u, dim) && PlaneParts(pts, u, off, n, d, cv, m1 - off, m2 - off)
  {
    hide Permuted, Fit, PlaneParts, Parted, Coord, Below, AtMost;
    StillFit(pts, s, t, off, off + n, dim);
    Wider(t, u, m1, off + n, off, off + n);
    Trans(s, t, u, off, off + n);
    StillFit(pts, s, u, off, off + n, dim);
    PartsOf(pts, t, u, off, n, dim, d, cv, m1, m2, less, most);
  }

  lemma PartsOf(pts: seq<Point>, t: seq<nat>, u: seq<nat>, off: nat, n: nat, dim: nat, d: nat, cv: real, m1: nat, m2: nat,
                less: nat -> bool, most: nat -> bool)
    requires off <= m1 <= m2 <= off + n <= |t| && Fit(pts, t, dim) && Fit(pts, u, dim) && d < dim
    requires forall x: nat :: (less(x) <==> Below(pts, d, cv, x)) && (most(x) <==> AtMost(pts, d, cv, x))
    requires Parted(t, off, m1, off + n, less) && Permuted(t, u, m1, off + n) && Parted(u, m1, m2, off + n, most)
    ensures PlaneParts(pts, u, off, n, d, cv, m1 - off, m2 - off)
  {
    forall i: nat | off <= i < m1 ensures Coord(pts, u, i, d) < cv {
      assert u[i] == u[..m1][i] == t[i];
    }
    forall i: nat | m1 <= i < m2 ensures Coord(pts, u, i, d) == cv {
      var j := Origin(t, u, m1, off + n, i);
    }
  }

  /** annBoxSplit: the points inside the box come first. */
  method BoxSplit(pts: seq<Point>, pidx: array<nat>, off: nat, n: nat, dim: nat, box: Rect) returns (nIn: nat)
    requires off + n <= pidx.Length && Fit(pts, pidx[..], dim)
    modifies pidx
    ensures nIn <= n && Permuted(old(pidx[..]), pidx[..], off, off + n) && Fit(pts, pidx[..], dim)
    ensures forall i: nat :: off <= i < off + n ==> (Inside(box, pts[pidx[i]]) <==> i < off + nIn)
  {
    hide Permuted, Inside;
    ghost var s := pidx[..];
    var m := Partition(pidx, off, off + n, (x: nat) => x < |pts| && Inside(box, pts[x]));
    StillFit(pts, s, pidx[..], off, off + n, dim);
    nIn := m - off;
    assert forall i: nat :: off <= i < off + n ==> pidx[i] == pidx[..][i];
  }

  // ---------- extents ----------

  /** The least and the greatest coordinate d of the n points from off. */
  function MinOf(pts: seq<Point>, s: seq<nat>, off: nat, n: nat, d: nat): real
    requires n >= 1
  {
    var c := Coord(pts, s, off + n - 1, d);
    if n == 1 then c else var m := MinOf(pts, s, off, n - 1, d); if c < m then c else m
  }

  function MaxOf(pts: seq<Point>, s: seq<nat>, off: nat, n: nat, d: nat): real
    requires n >= 1
  {
    var c := Coord(pts, s, off + n - 1, d);
    if n == 1 then c else var m := MaxOf(pts, s, off, n - 1, d); if c > m then c else m
  }

  lemma {:induction false} MinBelow(pts: seq<Point>, s: seq<nat>, off: nat, n: nat, d: nat, i: nat)
    requires off <= i < off + n
    ensures MinOf(pts, s, off, n, d) <= Coord(pts, s, i, d) <= MaxOf(pts, s, off, n, d)
    decreases n
  {
    hide Coord;
    if i < off + n - 1 { MinBelow(pts, s, off, n - 1, d, i); }
    else if n > 1 { MinBelow(pts, s, off, n - 1, d, off); }
  }

  lemma {:induction false} MinAttained(pts: seq<Point>, s: seq<nat>, off: nat, n: nat, d: nat) returns (i: nat, j: nat)
    requires n >= 1
    ensures off <= i < off + n && Coord(pts, s, i, d) == MinOf(pts, s, off, n, d)
    ensures off <= j < off + n && Coord(pts, s, j, d) == MaxOf(pts, s, off, n, d)
  {
    hide Coord;
    i, j := off + n - 1, off + n - 1;
    if n > 1 {
      var i', j' := MinAttained(pts, s, off, n - 1, d);
      if Coord(pts, s, i, d) >= MinOf(pts, s, off, n - 1, d) { i := i'; }
      if Coord(pts, s, j, d) <= MaxOf(pts, s, off, n - 1, d) { j := j'; }
    }
  }

  /** The extents depend only on which points there are. */
  lemma ExtentPermuted(pts: seq<Point>, s: seq<nat>, t: seq<nat>, off: nat, n: nat, d: nat)
    requires n >= 1 && off + n <= |s| && Permuted(s, t, off, off + n)
    ensures MinOf(pts, t, off, n, d) == MinOf(pts, s, off, n, d) && MaxOf(pts, t, off, n, d) == MaxOf(pts, s, off, n, d)
  {
    hide MinOf, MaxOf;
    PermutedBack(s, t, off, off + n);
    ExtentWithin(pts, s, t, off, n, d);
    ExtentWithin(pts, t, s, off, n, d);
  }

  lemma PermutedBack(s: seq<nat>, t: seq<nat>, a: nat, b: nat)
    requires a <= b <= |s| && Permuted(s, t, a, b)
    ensures Permuted(t, s, a, b)
  {
  }

  lemma ExtentWithin(pts: seq<Point>, s: seq<nat>, t: seq<nat>, off: nat, n: nat, d: nat)
    requires n >= 1 && off + n <= |s| && Permuted(s, t, off, off + n)
    ensures MinOf(pts, s, off, n, d) <= MinOf(pts, t, off, n, d) && MaxOf(pts, t, off, n, d) <= MaxOf(pts, s, off, n, d)
  {
    hide MinOf, MaxOf, Permuted;
    var i, j := MinAttained(pts, t, off, n, d);
    var i' := Origin(s, t, off, off + n, i);
    var j' := Origin(s, t, off, off + n, j);
    SamePermuted(s, off, off + n);
    OriginLength(s, t, off, off + n);
    MinBelow(pts, s, off, n, d, i');
    MinBelow(pts, s, off, n, d, j');
  }

  lemma OriginLength(s: seq<nat>, t: seq<nat>, a: nat, b: nat)
    requires a <= b <= |s| && Permuted(s, t, a, b)
    ensures |t| == |s|
  {
  }

  lemma ExtentNext(pts: seq<Point>, s: seq<nat>, off: nat, n: nat, d: nat)
    requires n >= 1
    ensures var c, lo, hi := Coord(pts, s, off + n, d), MinOf(pts, s, off, n, d), MaxOf(pts, s, off, n, d);
      && MinOf(pts, s, off, n + 1, d) == (if c < lo then c else lo)
      && MaxOf(pts, s, off, n + 1, d) == (if c > hi then c else hi)
      && lo <= hi
  {
    hide Coord;
    MinBelow(pts, s, off, n, d, off);
  }

  /** annMinMax; annSpread and the loop over one dimension of annEnclRect are the same scan. */
  method MinMax(pts: seq<Point>, pidx: array<nat>, off: nat, n: nat, ghost dim: nat, d: nat) returns (min: real, max: real)
    requires 1 <= n && off + n <= pidx.Length && Fit(pts, pidx[..], dim) && d < dim
    ensures min == MinOf(pts, pidx[..], off, n, d) && max == MaxOf(pts, pidx[..], off, n, d)
  {
    min, max := pts[pidx[off]][d], pts[pidx[off]][d];
    for i := 1 to n
      invariant min == MinOf(pts, pidx[..], off, i, d) && max == MaxOf(pts, pidx[..], off, i, d)
    {
      hide MinOf, MaxOf;
      ExtentNext(pts, pidx[..], off, i, d);
      var c := pts[pidx[off + i]][d];
      if c < min {
        min := c;
      } else if c > max {
        max := c;
      }
    }
  }

  /** annSpread */
  method Spread(pts: seq<Point>, pidx: array<nat>, off: nat, n: nat, ghost dim: nat, d: nat) returns (spr: real)
    requires 1 <= n && off + n <= pidx.Length && Fit(pts, pidx[..], dim) && d < dim
    ensures spr == MaxOf(pts, pidx[..], off, n, d) - MinOf(pts, pidx[..], off, n, d) >= 0.0
  {
    hide MinOf, MaxOf;
    var min, max := MinMax(pts, pidx, off, n, dim, d);
    spr := max - min;
    MinBelow(pts, pidx[..], off, n, d, off);
  }

  /** annMaxSpread: a dimension along which the points spread most. */
  method MaxSpread(pts: seq<Point>, pidx: array<nat>, off: nat, n: nat, dim: nat) returns (maxDim: nat)
    requires 1 <= n && off + n <= pidx.Length && Fit(pts, pidx[..], dim) && dim >= 1
    ensures maxDim < dim
    ensures forall d: nat :: d < dim ==>
      MaxOf(pts, pidx[..], off, n, d) - MinOf(pts, pidx[..], off, n, d)
      <= MaxOf(pts, pidx[..], off, n, maxDim) - MinOf(pts, pidx[..], off, n, maxDim)
  {
    hide MinOf, MaxOf;
    maxDim := 0;
    var maxSpr := 0.0;
    MinBelow(pts, pidx[..], off, n, 0, off);
    for d := 0 to dim
      invariant maxDim < dim && 0.0 <= maxSpr <= MaxOf(pts, pidx[..], off, n, maxDim) - MinOf(pts, pidx[..], off, n, maxDim)
      invariant forall e: nat :: e < d ==> MaxOf(pts, pidx[..], off, n, e) - MinOf(pts, pidx[..], off, n, e) <= maxSpr
    {
      var spr := Spread(pts, pidx, off, n, dim, d);
      if spr > maxSpr {
        maxSpr := spr;
        maxDim := d;
      }
    }
  }

  /** The smallest box that holds n points. */
  ghost predicate Tight(pts: seq<Point>, s: seq<nat>, off: nat, n: nat, dim: nat, b: Rect)
    requires n >= 1
  {
    |b.lo| == |b.hi| == dim && forall d: nat :: d < dim ==>
      b.lo[d] == MinOf(pts, s, off, n, d) && b.hi[d] == MaxOf(pts, s, off, n, d)
  }

  /** annEnclRect */
  method EnclRect(pts: seq<Point>, pidx: array<nat>, off: nat, n: nat, dim: nat) returns (bnds: Rect)
    requires 1 <= n && off + n <= pidx.Length && Fit(pts, pidx[..], dim)
    ensures Tight(pts, pidx[..], off, n, dim, bnds)
  {
    hide MinOf, MaxOf;
    var lo, hi := [], [];
    for d := 0 to dim
      invariant |lo| == |hi| == d
      invariant forall e: nat :: e < d ==> lo[e] == MinOf(pts, pidx[..], off, n, e) && hi[e] == MaxOf(pts, pidx[..], off, n, e)
    {
      var l, h := MinMax(pts, pidx, off, n, dim, d);
      lo, hi := lo + [l], hi + [h];
    }
    bnds := Rect(lo, hi);
  }

  /** All n points lie in the box. */
  ghost predicate Holds(pts: seq<Point>, s: seq<nat>, off: nat, n: nat, b: Rect) {
    forall i: nat :: off <= i < off + n && i < |s| && s[i] < |pts| ==> Inside(b, pts[s[i]])
  }

  /** The tight box holds the points, and every box that holds them contains it. */
  lemma TightLeast(pts: seq<Point>, s: seq<nat>, off: nat, n: nat, dim: nat, t: Rect, b: Rect)
    requires 1 <= n && off + n <= |s| && Fit(pts, s, dim) && Tight(pts, s, off, n, dim, t)
    ensures Holds(pts, s, off, n, t)
    ensures Holds(pts, s, off, n, b) <==> Contains(b, t, dim)
  {
    hide MinOf, MaxOf;
    forall i: nat | off <= i < off + n ensures Inside(t, pts[s[i]]) {
      forall d: nat | d < dim ensures t.lo[d] <= pts[s[i]][d] <= t.hi[d] { MinBelow(pts, s, off, n, d, i); }
    }
    if Holds(pts, s, off, n, b) {
      assert Inside(b, pts[s[off]]);
      forall d: nat | d < dim ensures b.lo[d] <= t.lo[d] <= t.hi[d] <= b.hi[d] {
        var i, j := MinAttained(pts, s, off, n, d);
        assert Inside(b, pts[s[i]]) && Inside(b, pts[s[j]]);
        MinBelow(pts, s, off, n, d, off);
      }
    }
    if Contains(b, t, dim) {
      forall i: nat | off <= i < off + n ensures Inside(b, pts[s[i]]) { assert Inside(t, pts[s[i]]); }
    }
  }

  // ---------- selection ----------

  /** No point of [a, m) exceeds one of [m, b) in coordinate d. */
  ghost predicate Divided(pts: seq<Point>, s: seq<nat>, a: nat, m: int, b: nat, d: nat) {
    forall i: nat, j: nat {:trigger Coord(pts, s, i, d), Coord(pts, s, j, d)} :: a <= i < m <= j < b && j < |s| ==> Coord(pts, s, i, d) <= Coord(pts, s, j, d)
  }

  ghost predicate AllLe(pts: seq<Point>, s: seq<nat>, d: nat, c: real, a: int, b: int) {
    forall i: nat {:trigger Coord(pts, s, i, d)} :: a <= i < b && i < |s| ==> Coord(pts, s, i, d) <= c
  }

  ghost predicate AllGe(pts: seq<Point>, s: seq<nat>, d: nat, c: real, a: int, b: int) {
    forall i: nat {:trigger Coord(pts, s, i, d)} :: a <= i < b && i < |s| ==> Coord(pts, s, i, d) >= c
  }

  /** An exchange on one side of a division keeps it. */
  lemma SwapDivided(pts: seq<Point>, s: seq<nat>, a: nat, m: int, b: nat, d: nat, i: nat, j: nat)
    requires a <= i < b <= |s| && a <= j < b && Divided(pts, s, a, m, b, d) && (i < m <==> j < m)
    ensures Divided(pts, Swap(s, i, j), a, m, b, d)
  {
    hide Coord, Swap;
    SwapLength(s, i, j);
    SwapCoord(pts, s, i, j, d);
  }

  lemma SwapLength(s: seq<nat>, i: nat, j: nat)
    requires i < |s| && j < |s|
    ensures |Swap(s, i, j)| == |s|
  {
  }

  lemma SwapCoord(pts: seq<Point>, s: seq<nat>, i: nat, j: nat, d: nat)
    requires i < |s| && j < |s|
    ensures forall k: nat {:trigger Coord(pts, Swap(s, i, j), k, d)} :: k < |s| ==>
      Coord(pts, Swap(s, i, j), k, d) == Coord(pts, s, if k == i then j else if k == j then i else k, d)
  {
    forall k: nat | k < |s|
      ensures Coord(pts, Swap(s, i, j), k, d) == Coord(pts, s, if k == i then j else if k == j then i else k, d)
    {
      assert Swap(s, i, j)[k] == s[if k == i then j else if k == j then i else k];
    }
  }

  /** What an exchange within [l, r], itself within [a, b), keeps of the state of a selection. */
  ghost predicate Selecting(pts: seq<Point>, s0: seq<nat>, s: seq<nat>, a: nat, l: int, r: int, b: nat, d: nat)
    requires a <= b <= |s0|
  {
    Permuted(s0, s, a, b) && Divided(pts, s, a, l, b, d) && Divided(pts, s, a, r + 1, b, d)
  }

  lemma SwapSelecting(pts: seq<Point>, s0: seq<nat>, s: seq<nat>, a: nat, l: int, r: int, b: nat, d: nat, i: nat, j: nat)
    requires a <= l <= i <= r < b <= |s0| && l <= j <= r && Selecting(pts, s0, s, a, l, r, b, d) && |s| == |s0|
    ensures Selecting(pts, s0, Swap(s, i, j), a, l, r, b, d)
  {
    hide Permuted, Divided;
    SwapPermutes(s, i, j, a, b);
    Trans(s0, s, Swap(s, i, j), a, b);
    SwapDivided(pts, s, a, l, b, d, i, j);
    SwapDivided(pts, s, a, r + 1, b, d, i, j);
  }

  /** The state of the scans about the pivot c, which is at l: i has come up and k has come down. */
  ghost predicate Pivoting(pts: seq<Point>, s: seq<nat>, d: nat, c: real, l: nat, i: int, k: int, r: nat) {
    l < |s| && Coord(pts, s, l, d) == c && AllLe(pts, s, d, c, l, i + 1) && AllGe(pts, s, d, c, k, r + 1)
  }

  /** Both scans stopped before passing each other. */
  lemma PivotSwap(pts: seq<Point>, s: seq<nat>, d: nat, c: real, l: nat, i: int, k: int, r: nat)
    requires l < i < k <= r < |s| && Pivoting(pts, s, d, c, l, i - 1, k + 1, r)
    requires Coord(pts, s, i, d) >= c && Coord(pts, s, k, d) <= c
    ensures Pivoting(pts, Swap(s, i, k), d, c, l, i, k, r)
  {
    hide Coord, Swap;
    SwapLength(s, i, k);
    SwapCoord(pts, s, i, k, d);
  }

  /** The scans have passed each other: the pivot belongs at k. */
  lemma PivotDone(pts: seq<Point>, s: seq<nat>, a: nat, d: nat, c: real, l: nat, i: int, k: int, r: nat, b: nat)
    requires a <= l <= k < i <= r + 1 <= b <= |s| || (a <= l <= k == i <= r < b <= |s|)
    requires Pivoting(pts, s, d, c, l, i - 1, k + 1, r) && Coord(pts, s, k, d) <= c
    requires Divided(pts, s, a, l, b, d) && Divided(pts, s, a, r + 1, b, d)
    ensures var t := Swap(s, l, k); Divided(pts, t, a, k, b, d) && Divided(pts, t, a, k + 1, b, d)
  {
    hide Coord, Swap;
    SwapLength(s, l, k);
    SwapCoord(pts, s, l, k, d);
    SwapDivided(pts, s, a, l, b, d, l, k);
    SwapDivided(pts, s, a, r + 1, b, d, l, k);
  }

  lemma Scan(pts: seq<Point>, s: seq<nat>, d: nat, c: real, l: nat, i: int, k: int, r: nat)
    requires l <= r < |s| && Pivoting(pts, s, d, c, l, i - 1, k + 1, r)
    ensures l <= i <= r && Coord(pts, s, i, d) <= c ==> Pivoting(pts, s, d, c, l, i, k + 1, r)
    ensures l <= k <= r && Coord(pts, s, k, d) >= c ==> Pivoting(pts, s, d, c, l, i - 1, k, r)
    ensures l <= i - 1 <= r ==> Coord(pts, s, i - 1, d) <= c
    ensures l <= k + 1 <= r ==> Coord(pts, s, k + 1, d) >= c
  {
    hide Coord;
  }

  /** The middle entry becomes the pivot, at l; an entry at r that is at least as large stops the scan up. */
  method PivotFirst(pts: seq<Point>, pidx: array<nat>, ghost s0: seq<nat>, ghost a: nat, ghost b: nat, ghost dim: nat, l: nat, r: nat, d: nat)
    returns (c: real)
    requires a <= l < r < b <= |s0| == pidx.Length && Fit(pts, s0, dim) && d < dim && Selecting(pts, s0, pidx[..], a, l, r, b, d)
    modifies pidx
    ensures Selecting(pts, s0, pidx[..], a, l, r, b, d) && Pivoting(pts, pidx[..], d, c, l, l, r, r)
  {
    hide Permuted, Divided, Selecting, Fit, Coord;
    ghost var s := pidx[..];
    var i := (r + l) / 2;
    SelectingFit(pts, s0, s, a, l, r, b, dim, d);
    assert s[i] == pidx[i] && s[r] == pidx[r];
    CoordAt(pts, s, i, d, dim);
    CoordAt(pts, s, r, d, dim);
    if pts[pidx[i]][d] > pts[pidx[r]][d] {
      SwapSelecting(pts, s0, s, a, l, r, b, d, i, r);
      SwapCoord(pts, s, i, r, d);
      PaSwap(pidx, i, r);
    }
    ghost var t := pidx[..];
    assert Coord(pts, t, i, d) <= Coord(pts, t, r, d);
    SwapSelecting(pts, s0, t, a, l, r, b, d, l, i);
    SwapCoord(pts, t, l, i, d);
    PaSwap(pidx, l, i);
    SelectingFit(pts, s0, pidx[..], a, l, r, b, dim, d);
    assert pidx[..][l] == pidx[l];
    CoordAt(pts, pidx[..], l, d, dim);
    c := pts[pidx[l]][d];
  }

  /** One pass of the selection: exchange about the middle entry of [l, r], whose coordinate stops both
      scans; neither scan checks the bounds. */
  method Pivot(pts: seq<Point>, pidx: array<nat>, ghost s0: seq<nat>, ghost a: nat, ghost b: nat, ghost dim: nat, l: nat, r: nat, d: nat)
    returns (k: nat)
    requires a <= l < r < b <= |s0| == pidx.Length && Fit(pts, s0, dim) && d < dim && Selecting(pts, s0, pidx[..], a, l, r, b, d)
    modifies pidx
    ensures l <= k <= r && Selecting(pts, s0, pidx[..], a, l, r, b, d)
    ensures Divided(pts, pidx[..], a, k, b, d) && Divided(pts, pidx[..], a, k + 1, b, d)
  {
    hide Permuted, Divided, Selecting, Pivoting, Fit, Coord;
    var c := PivotFirst(pts, pidx, s0, a, b, dim, l, r, d);
    var i: int, kk: int := l, r;
    while true
      invariant l <= i < kk <= r && Selecting(pts, s0, pidx[..], a, l, r, b, d) && Pivoting(pts, pidx[..], d, c, l, i, kk, r)
      decreases kk - i
    {
      ghost var s, i0, k0 := pidx[..], i, kk;
      i := i + 1;
      Scan(pts, s, d, c, l, i, kk - 1, r);
      SelectingFit(pts, s0, s, a, l, r, b, dim, d);
      while pts[pidx[i]][d] < c
        invariant i0 < i <= k0
        invariant pidx[..] == s && Pivoting(pts, s, d, c, l, i - 1, k0, r)
        decreases k0 - i
      {
        assert s[i] == pidx[i];
        CoordAt(pts, s, i, d, dim);
        Scan(pts, s, d, c, l, i, k0 - 1, r);
        i := i + 1;
      }
      kk := kk - 1;
      while pts[pidx[kk]][d] > c
        invariant i0 <= kk < k0
        invariant pidx[..] == s && Pivoting(pts, s, d, c, l, i - 1, kk + 1, r)
        decreases kk
      {
        assert s[kk] == pidx[kk];
        CoordAt(pts, s, kk, d, dim);
        Scan(pts, s, d, c, l, i, kk, r);
        kk := kk - 1;
      }
      assert s[kk] == pidx[kk] && s[i] == pidx[i];
      CoordAt(pts, s, kk, d, dim);
      CoordAt(pts, s, i, d, dim);
      if i < kk {
        PivotSwap(pts, s, d, c, l, i, kk, r);
        SwapSelecting(pts, s0, s, a, l, r, b, d, i, kk);
        PaSwap(pidx, i, kk);
      } else {
        break;
      }
    }
    k := kk;
    ghost var s := pidx[..];
    SelectingParts(pts, s0, s, a, l, r, b, d);
    PivotDone(pts, s, a, d, c, l, i, kk, r, b);
    SwapSelecting(pts, s0, s, a, l, r, b, d, l, k);
    PaSwap(pidx, l, k);
  }

  lemma SelectingParts(pts: seq<Point>, s0: seq<nat>, s: seq<nat>, a: nat, l: int, r: int, b: nat, d: nat)
    requires a <= b <= |s0| && Selecting(pts, s0, s, a, l, r, b, d)
    ensures Permuted(s0, s, a, b) && Divided(pts, s, a, l, b, d) && Divided(pts, s, a, r + 1, b, d)
  {
  }

  lemma CoordAt(pts: seq<Point>, s: seq<nat>, i: nat, d: nat, dim: nat)
    requires Fit(pts, s, dim) && i < |s| && d < dim
    ensures s[i] < |pts| && |pts[s[i]]| == dim && Coord(pts, s, i, d) == pts[s[i]][d]
  {
  }

  lemma SelectingFit(pts: seq<Point>, s0: seq<nat>, s: seq<nat>, a: nat, l: int, r: int, b: nat, dim: nat, d: nat)
    requires a <= b <= |s0| && Selecting(pts, s0, s, a, l, r, b, d) && Fit(pts, s0, dim)
    ensures Fit(pts, s, dim) && |s| == |s0|
  {
    StillFit(pts, s0, s, a, b, dim);
  }

  lemma StartSelecting(pts: seq<Point>, s: seq<nat>, a: nat, b: nat, d: nat)
    requires a < b <= |s|
    ensures Selecting(pts, s, s, a, a, b - 1, b, d)
  {
  }

  /** The interval shrinks to one side of the pivot. */
  lemma Narrow(pts: seq<Point>, s0: seq<nat>, s: seq<nat>, a: nat, l: int, r: int, b: nat, d: nat, k: int)
    requires a <= b <= |s0| && Selecting(pts, s0, s, a, l, r, b, d)
    requires Divided(pts, s, a, k, b, d) && Divided(pts, s, a, k + 1, b, d)
    ensures Selecting(pts, s0, s, a, l, k - 1, b, d) && Selecting(pts, s0, s, a, k + 1, r, b, d)
    ensures Selecting(pts, s0, s, a, k, k, b, d)
  {
    hide Permuted, Divided;
  }

  /** The entry of rank m - a: Hoare's selection. */
  method Select(pts: seq<Point>, pidx: array<nat>, a: nat, b: nat, ghost dim: nat, m: nat, d: nat)
    requires a <= m < b <= pidx.Length && Fit(pts, pidx[..], dim) && d < dim
    modifies pidx
    ensures Permuted(old(pidx[..]), pidx[..], a, b)
    ensures Divided(pts, pidx[..], a, m, b, d) && Divided(pts, pidx[..], a, m + 1, b, d)
  {
    hide Permuted, Divided, Selecting, Fit;
    ghost var s0 := pidx[..];
    var l: int, r: int := a, b - 1;
    StartSelecting(pts, s0, a, b, d);
    while l < r
      invariant a <= l <= m <= r < b && Selecting(pts, s0, pidx[..], a, l, r, b, d)
      decreases r - l
    {
      var k := Pivot(pts, pidx, s0, a, b, dim, l, r, d);
      Narrow(pts, s0, pidx[..], a, l, r, b, d, k);
      if k > m {
        r := k - 1;
      } else if k < m {
        l := k + 1;
      } else {
        l, r := k, k;
        break;
      }
    }
    SelectingParts(pts, s0, pidx[..], a, l, r, b, d);
  }

  /** The place of the largest of m points. */
  method Largest(pts: seq<Point>, pidx: array<nat>, off: nat, m: nat, ghost dim: nat, d: nat) returns (k: nat)
    requires off + m <= pidx.Length && m >= 1 && Fit(pts, pidx[..], dim) && d < dim
    ensures off <= k < off + m && AllLe(pts, pidx[..], d, Coord(pts, pidx[..], k, d), off, off + m)
  {
    hide Fit, Coord;
    ghost var s := pidx[..];
    CoordAt(pts, s, off, d, dim);
    assert s[off] == pidx[off];
    var c := pts[pidx[off]][d];
    k := off;
    for i := off + 1 to off + m
      invariant off <= k < off + m && c == Coord(pts, s, k, d) && AllLe(pts, s, d, c, off, i)
    {
      CoordAt(pts, s, i, d, dim);
      assert s[i] == pidx[i];
      if pts[pidx[i]][d] > c {
        c := pts[pidx[i]][d];
        k := i;
      }
    }
  }

  /** annMedianSplit: afterwards the first nLo - 1 points are at most point nLo - 1, which is at most point
      nLo, which is at most the others; the cut lies half way between these two. */
  method MedianSplit(pts: seq<Point>, pidx: array<nat>, off: nat, n: nat, dim: nat, d: nat, nLo: nat) returns (cv: real)
    requires off + n <= pidx.Length && 1 <= nLo < n && Fit(pts, pidx[..], dim) && d < dim
    modifies pidx
    ensures Permuted(old(pidx[..]), pidx[..], off, off + n) && Fit(pts, pidx[..], dim)
    ensures Divided(pts, pidx[..], off, off + nLo - 1, off + n, d)
    ensures Divided(pts, pidx[..], off, off + nLo, off + n, d)
    ensures Divided(pts, pidx[..], off, off + nLo + 1, off + n, d)
    ensures var x, y := Coord(pts, pidx[..], off + nLo - 1, d), Coord(pts, pidx[..], off + nLo, d); x <= cv <= y && cv == (x + y) / 2.0
  {
    hide Permuted, Divided, Fit, Coord, Swap;
    ghost var s0 := pidx[..];
    Select(pts, pidx, off, off + n, dim, off + nLo, d);
    ghost var s := pidx[..];
    StillFit(pts, s0, s, off, off + n, dim);
    var k := Largest(pts, pidx, off, nLo, dim, d);
    LastOfLow(pts, s, off, nLo, off + n, d, k);
    SwapPermutes(s, off + nLo - 1, k, off, off + n);
    Trans(s0, s, Swap(s, off + nLo - 1, k), off, off + n);
    PaSwap(pidx, off + nLo - 1, k);
    ghost var t := pidx[..];
    StillFit(pts, s0, t, off, off + n, dim);
    CoordAt(pts, t, off + nLo - 1, d, dim);
    CoordAt(pts, t, off + nLo, d, dim);
    assert t[off + nLo - 1] == pidx[off + nLo - 1] && t[off + nLo] == pidx[off + nLo];
    cv := (pts[pidx[off + nLo - 1]][d] + pts[pidx[off + nLo]][d]) / 2.0;
    DividedAt(pts, t, off, off + nLo, off + n, d);
  }

  lemma DividedAt(pts: seq<Point>, s: seq<nat>, a: nat, m: nat, b: nat, d: nat)
    requires a < m < b <= |s| && Divided(pts, s, a, m, b, d)
    ensures Coord(pts, s, m - 1, d) <= Coord(pts, s, m, d)
  {
  }

  /** The largest of the low part goes last. */
  lemma LastOfLow(pts: seq<Point>, s: seq<nat>, a: nat, nLo: nat, b: nat, d: nat, k: nat)
    requires a <= k < a + nLo < b <= |s| && Divided(pts, s, a, a + nLo, b, d) && Divided(pts, s, a, a + nLo + 1, b, d)
    requires AllLe(pts, s, d, Coord(pts, s, k, d), a, a + nLo)
    ensures var t := Swap(s, a + nLo - 1, k);
      Divided(pts, t, a, a + nLo - 1, b, d) && Divided(pts, t, a, a + nLo, b, d) && Divided(pts, t, a, a + nLo + 1, b, d)
  {
    hide Coord, Swap;
    var m := a + nLo - 1;
    SwapLength(s, m, k);
    SwapCoord(pts, s, m, k, d);
    SwapDivided(pts, s, a, m + 1, b, d, m, k);
    SwapDivided(pts, s, a, m + 2, b, d, m, k);
  }
}
