// Building bd-trees with the simple shrinking rule (bd_tree.cpp).
module BdTree {
  import opened Geometry
  import opened PointSplit
  import opened CellRules
  import opened KdSplit
  import opened KdTree

  // ---------- the rule as functions of the tight box t and the cell b ----------

  /** The longest of the first d sides, or 0. */
  function LongestTo(t: Rect, d: nat): (m: real)
    requires d <= |t.lo| && d <= |t.hi|
    ensures m >= 0.0 && forall i: nat :: i < d ==> Length(t, i) <= m
  {
    if d == 0 then 0.0 else var m := LongestTo(t, d - 1); if Length(t, d - 1) > m then Length(t, d - 1) else m
  }

  /** BD_GAP_THRESH: a gap of half the longest tight side is large enough. */
  predicate Large(gap: real, longest: real) { gap >= longest * 0.5 }

  predicate LargeHi(b: Rect, t: Rect, i: nat, longest: real)
    requires i < |b.hi| && i < |t.hi|
  {
    Large(b.hi[i] - t.hi[i], longest)
  }

  predicate LargeLo(b: Rect, t: Rect, i: nat, longest: real)
    requires i < |b.lo| && i < |t.lo|
  {
    Large(t.lo[i] - b.lo[i], longest)
  }

  /** How many of the first 2d sides have a large gap. */
  function LargeGaps(b: Rect, t: Rect, longest: real, d: nat): nat
    requires d <= |b.lo| && d <= |b.hi| && d <= |t.lo| && d <= |t.hi|
  {
    if d == 0 then 0
    else LargeGaps(b, t, longest, d - 1) + (if LargeHi(b, t, d - 1, longest) then 1 else 0) + (if LargeLo(b, t, d - 1, longest) then 1 else 0)
  }

  /** b with the sides that have a large gap moved in; the first d dimensions are done, the others tight. */
  predicate Pulled(r: Rect, b: Rect, t: Rect, longest: real, dim: nat, d: nat) {
    && |r.lo| == |r.hi| == |b.lo| == |b.hi| == |t.lo| == |t.hi| == dim
    && (forall i: nat :: i < dim ==> r.hi[i] == if i < d && !LargeHi(b, t, i, longest) then b.hi[i] else t.hi[i])
    && (forall i: nat :: i < dim ==> r.lo[i] == if i < d && !LargeLo(b, t, i, longest) then b.lo[i] else t.lo[i])
  }

  /** The simple rule shrinks when at least BD_CT_THRESH sides have a large gap. */
  predicate Shrinks(b: Rect, t: Rect, dim: nat)
    requires |b.lo| == |b.hi| == |t.lo| == |t.hi| == dim
  {
    LargeGaps(b, t, LongestTo(t, dim), dim) >= 2
  }

  /** The inner box lies between the tight box and the cell. */
  lemma PulledBetween(r: Rect, b: Rect, t: Rect, longest: real, dim: nat)
    requires Contains(b, t, dim) && Pulled(r, b, t, longest, dim, dim)
    ensures Contains(b, r, dim) && Contains(r, t, dim)
  {
  }

  /** No gap of the inner box is large, unless the longest tight side is 0: then every gap is. */
  lemma {:induction false} GapsOfPulled(r: Rect, b: Rect, t: Rect, longest: real, dim: nat, d: nat)
    requires Contains(b, t, dim) && Pulled(r, b, t, longest, dim, dim) && longest >= 0.0 && d <= dim
    ensures LargeGaps(r, t, longest, d) == if longest > 0.0 then 0 else 2 * d
    ensures longest == 0.0 ==> LargeGaps(b, t, longest, d) == 2 * d
  {
    if d > 0 { GapsOfPulled(r, b, t, longest, dim, d - 1); }
  }

  /** A simple shrink is followed by another just when the points coincide. */
  lemma ShrinksAgain(r: Rect, b: Rect, t: Rect, dim: nat)
    requires Contains(b, t, dim) && dim >= 1 && Pulled(r, b, t, LongestTo(t, dim), dim, dim)
    ensures Shrinks(r, t, dim) <==> t.lo == t.hi
    ensures t.lo == t.hi ==> Shrinks(b, t, dim) && r == t
  {
    var longest := LongestTo(t, dim);
    GapsOfPulled(r, b, t, longest, dim, dim);
    LongestZero(t, dim, dim);
    if t.lo == t.hi {
      assert r.lo == t.lo && r.hi == t.hi;
    } else {
      assert exists i :: 0 <= i < dim && t.lo[i] != t.hi[i];
    }
  }

  lemma {:induction false} LongestZero(t: Rect, dim: nat, d: nat)
    requires IsBox(t, dim) && d <= dim
    ensures LongestTo(t, d) == 0.0 <==> forall i: nat :: i < d ==> t.lo[i] == t.hi[i]
  {
    if d > 0 { LongestZero(t, dim, d - 1); }
  }

  // ---------- what the rule amounts to ----------

  lemma {:induction false} LongestAttained(t: Rect, d: nat)
    requires d <= |t.lo| && d <= |t.hi|
    ensures LongestTo(t, d) == 0.0 || exists e: nat :: e < d && Length(t, e) == LongestTo(t, d)
  {
    if d > 0 { LongestAttained(t, d - 1); }
  }

  predicate LargeAt(b: Rect, t: Rect, longest: real, i: nat, upper: bool)
    requires i < |b.hi| && i < |t.hi| && i < |b.lo| && i < |t.lo|
  {
    if upper then LargeHi(b, t, i, longest) else LargeLo(b, t, i, longest)
  }

  /** At least half of the longest side is at least half of every side. */
  lemma LargeIs(b: Rect, t: Rect, dim: nat, i: nat, upper: bool)
    requires |b.lo| == |b.hi| == dim && IsBox(t, dim) && i < dim
    ensures LargeAt(b, t, LongestTo(t, dim), i, upper) <==> LargeSide(b, t, dim, i, upper)
  {
    hide LongestTo;
    LongestAttained(t, dim);
    assert Length(t, i) >= 0.0;
  }

  lemma {:induction false} SomeGap(b: Rect, t: Rect, longest: real, d: nat) returns (i: nat, u: bool)
    requires d <= |b.lo| && d <= |b.hi| && d <= |t.lo| && d <= |t.hi| && LargeGaps(b, t, longest, d) >= 1
    ensures i < d && LargeAt(b, t, longest, i, u)
  {
    if LargeHi(b, t, d - 1, longest) { i, u := d - 1, true; }
    else if LargeLo(b, t, d - 1, longest) { i, u := d - 1, false; }
    else { i, u := SomeGap(b, t, longest, d - 1); }
  }

  lemma {:induction false} TwoGaps(b: Rect, t: Rect, longest: real, d: nat) returns (i: nat, u: bool, j: nat, v: bool)
    requires d <= |b.lo| && d <= |b.hi| && d <= |t.lo| && d <= |t.hi| && LargeGaps(b, t, longest, d) >= 2
    ensures i < d && j < d && LargeAt(b, t, longest, i, u) && LargeAt(b, t, longest, j, v) && (i != j || u != v)
  {
    var hi, lo := LargeHi(b, t, d - 1, longest), LargeLo(b, t, d - 1, longest);
    if hi && lo {
      i, u, j, v := d - 1, true, d - 1, false;
    } else if hi || lo {
      i, u := d - 1, hi;
      j, v := SomeGap(b, t, longest, d - 1);
    } else {
      i, u, j, v := TwoGaps(b, t, longest, d - 1);
    }
  }

  lemma {:induction false} GapCounted(b: Rect, t: Rect, longest: real, d: nat, i: nat, u: bool)
    requires d <= |b.lo| && d <= |b.hi| && d <= |t.lo| && d <= |t.hi| && i < d && LargeAt(b, t, longest, i, u)
    ensures LargeGaps(b, t, longest, d) >= 1
  {
    if i < d - 1 { GapCounted(b, t, longest, d - 1, i, u); }
  }

  lemma {:induction false} GapsCounted(b: Rect, t: Rect, longest: real, d: nat, i: nat, u: bool, j: nat, v: bool)
    requires d <= |b.lo| && d <= |b.hi| && d <= |t.lo| && d <= |t.hi| && i < d && j < d
    requires LargeAt(b, t, longest, i, u) && LargeAt(b, t, longest, j, v) && (i != j || u != v)
    ensures LargeGaps(b, t, longest, d) >= 2
  {
    if i < d - 1 && j < d - 1 { GapsCounted(b, t, longest, d - 1, i, u, j, v); }
    else if i < d - 1 { GapCounted(b, t, longest, d - 1, i, u); }
    else if j < d - 1 { GapCounted(b, t, longest, d - 1, j, v); }
  }

  /** The count of large gaps reaches two just when there are two. */
  lemma ShrinksTwo(b: Rect, t: Rect, dim: nat)
    requires |b.lo| == |b.hi| == dim && IsBox(t, dim)
    ensures Shrinks(b, t, dim) <==> TwoLarge(b, t, dim)
  {
    hide LongestTo, LargeGaps, LargeSide, LargeAt;
    var m := LongestTo(t, dim);
    if Shrinks(b, t, dim) {
      var i, u, j, v := TwoGaps(b, t, m, dim);
      LargeIs(b, t, dim, i, u);
      LargeIs(b, t, dim, j, v);
    }
    if TwoLarge(b, t, dim) {
      var i: nat, u, j: nat, v :| LargeSide(b, t, dim, i, u) && LargeSide(b, t, dim, j, v) && (i != j || u != v);
      LargeInside(b, t, dim, i, u);
      LargeInside(b, t, dim, j, v);
      LargeIs(b, t, dim, i, u);
      LargeIs(b, t, dim, j, v);
      GapsCounted(b, t, m, dim, i, u, j, v);
    }
  }

  lemma LargeInside(b: Rect, t: Rect, dim: nat, i: nat, u: bool)
    requires |b.lo| == |b.hi| == |t.lo| == |t.hi| == dim && LargeSide(b, t, dim, i, u)
    ensures i < dim
  {
  }

  lemma PulledMoves(r: Rect, b: Rect, t: Rect, dim: nat)
    requires IsBox(t, dim) && Pulled(r, b, t, LongestTo(t, dim), dim, dim)
    ensures MovedIn(r, b, t, dim)
  {
    hide LongestTo, LargeHi, LargeLo, LargeSide;
    forall d: nat | d < dim
      ensures LargeHi(b, t, d, LongestTo(t, dim)) <==> LargeSide(b, t, dim, d, true)
      ensures LargeLo(b, t, d, LongestTo(t, dim)) <==> LargeSide(b, t, dim, d, false)
    {
      LargeIs(b, t, dim, d, true);
      LargeIs(b, t, dim, d, false);
    }
  }

  /** The decision and the inner box, in terms of the points. */
  lemma Decided(rule: ShrinkRule, pts: seq<Point>, s: seq<nat>, off: nat, n: nat, dim: nat, b: Rect, t: Rect, r: Rect)
    requires n >= 1 && off + n <= |s| && Fit(pts, s, dim) && |b.lo| == |b.hi| == dim && rule.Simple?
    requires Tight(pts, s, off, n, dim, t) && |t.lo| == |t.hi| == dim && Pulled(r, b, t, LongestTo(t, dim), dim, dim)
    ensures if Shrinks(b, t, dim) then ShrinksTo(rule, pts, Bucket(s, off, n), dim, b, r) else Stays(rule, pts, Bucket(s, off, n), dim, b)
  {
    hide Fit, Bucket, Enclosing, Pulled, TwoLarge, MovedIn, Shrinks;
    TightEncloses(pts, s, off, n, dim, t);
    TightIsBox(pts, s, off, n, dim, t);
    ShrinksTwo(b, t, dim);
    PulledMoves(r, b, t, dim);
  }

  lemma TightIsBox(pts: seq<Point>, s: seq<nat>, off: nat, n: nat, dim: nat, t: Rect)
    requires n >= 1 && off + n <= |s| && Fit(pts, s, dim) && Tight(pts, s, off, n, dim, t)
    ensures IsBox(t, dim)
  {
    hide MinOf, MaxOf;
    forall d: nat | d < dim ensures t.lo[d] <= t.hi[d] { MinBelow(pts, s, off, n, d, off); }
  }

  // ---------- coinciding points ----------

  /** All of these indices denote the same point. */
  ghost predicate Coincide(pts: seq<Point>, m: multiset<nat>) {
    forall x: nat, y: nat :: x in m && y in m && x < |pts| && y < |pts| ==> pts[x] == pts[y]
  }

  /** No more than bsp of the points from off on coincide. */
  ghost predicate Sparse(pts: seq<Point>, s: seq<nat>, off: nat, n: nat, bsp: nat)
    requires off + n <= |s|
  {
    forall m: multiset<nat> {:trigger Coincide(pts, m)} :: m <= multiset(s[off..off + n]) && Coincide(pts, m) ==> |m| <= bsp
  }

  /** What rbd_tree needs of its points, for its shrinking rule. */
  ghost predicate Apt(rule: ShrinkRule, pts: seq<Point>, s: seq<nat>, off: nat, n: nat, bsp: nat)
    requires off + n <= |s|
  {
    rule.Simple? ==> Sparse(pts, s, off, n, bsp)
  }

  /** A stretch of a permuted stretch. */
  lemma AptPart(rule: ShrinkRule, pts: seq<Point>, s: seq<nat>, t: seq<nat>, off: nat, n: nat, bsp: nat, off': nat, n': nat)
    requires off + n <= |s| == |t| && Permuted(s, t, off, off + n) && Apt(rule, pts, s, off, n, bsp)
    requires off <= off' && off' + n' <= off + n
    ensures Apt(rule, pts, t, off', n', bsp)
  {
    hide Permuted, Sparse;
    if rule.Simple? {
      SparsePermuted(pts, s, t, off, n, bsp);
      SparsePart(pts, t, off, n, bsp, off', n');
    }
  }

  lemma SparsePart(pts: seq<Point>, s: seq<nat>, off: nat, n: nat, bsp: nat, off': nat, n': nat)
    requires off + n <= |s| && Sparse(pts, s, off, n, bsp) && off <= off' && off' + n' <= off + n
    ensures Sparse(pts, s, off', n', bsp)
  {
    var a, b, c := s[off..off'], s[off'..off' + n'], s[off' + n'..off + n];
    assert s[off..off + n] == a + b + c;
    assert multiset(b) <= multiset(s[off..off + n]);
  }

  lemma SparsePermuted(pts: seq<Point>, s: seq<nat>, t: seq<nat>, off: nat, n: nat, bsp: nat)
    requires off + n <= |s| == |t| && Permuted(s, t, off, off + n) && Sparse(pts, s, off, n, bsp)
    ensures Sparse(pts, t, off, n, bsp)
  {
  }

  /** Points in a tight box without extent coincide. */
  lemma FlatCoincide(pts: seq<Point>, s: seq<nat>, off: nat, n: nat, dim: nat, t: Rect)
    requires n >= 1 && off + n <= |s| && Fit(pts, s, dim) && Tight(pts, s, off, n, dim, t)
    ensures t.lo == t.hi <==> Coincide(pts, multiset(s[off..off + n]))
  {
    hide MinOf, MaxOf;
    var m := multiset(s[off..off + n]);
    TightLeast(pts, s, off, n, dim, t, t);
    if t.lo == t.hi {
      forall x: nat, y: nat | x in m && y in m && x < |pts| && y < |pts| ensures pts[x] == pts[y] {
        var i :| 0 <= i < n && s[off..off + n][i] == x;
        var j :| 0 <= j < n && s[off..off + n][j] == y;
        assert Inside(t, pts[s[off + i]]) && Inside(t, pts[s[off + j]]);
      }
    }
    if Coincide(pts, m) {
      forall d: nat | d < dim ensures t.lo[d] == t.hi[d] {
        var i, j := MinAttained(pts, s, off, n, d);
        assert s[off..off + n][i - off] in m && s[off..off + n][j - off] in m;
        CoordAt(pts, s, i, d, dim);
        CoordAt(pts, s, j, d, dim);
      }
    }
  }

  /** In a stretch with more than bsp points, not all coincide. */
  lemma SparseNotFlat(pts: seq<Point>, s: seq<nat>, off: nat, n: nat, dim: nat, bsp: nat, t: Rect)
    requires n > bsp && off + n <= |s| && Fit(pts, s, dim) && Tight(pts, s, off, n, dim, t) && Sparse(pts, s, off, n, bsp)
    ensures t.lo != t.hi
  {
    hide Tight, Fit;
    FlatCoincide(pts, s, off, n, dim, t);
    assert |multiset(s[off..off + n])| == n;
  }

  // ---------- the methods ----------

  /** trySimpleShrink */
  method TrySimpleShrink(pts: seq<Point>, pidx: array<nat>, off: nat, n: nat, dim: nat, b: Rect, inner: OrthRect)
    returns (shrink: bool, ghost t: Rect)
    requires n >= 1 && off + n <= pidx.Length && Fit(pts, pidx[..], dim) && IsBox(b, dim)
    modifies inner
    ensures Tight(pts, pidx[..], off, n, dim, t) && shrink == Shrinks(b, t, dim)
    ensures Pulled(inner.Box(), b, t, LongestTo(t, dim), dim, dim)
  {
    hide Fit, Tight, LargeHi, LargeLo;
    var tight := EnclRect(pts, pidx, off, n, dim);
    t := tight;
    TightDim(pts, pidx[..], off, n, dim, t);
    inner.lo, inner.hi := tight.lo, tight.hi;
    var maxLength := 0.0;
    for i := 0 to dim
      invariant maxLength == LongestTo(t, i) && inner.lo == t.lo && inner.hi == t.hi
    {
      if inner.hi[i] - inner.lo[i] > maxLength { maxLength := inner.hi[i] - inner.lo[i]; }
    }
    var shrinkCt := 0;
    for i := 0 to dim
      invariant shrinkCt == LargeGaps(b, t, maxLength, i) && Pulled(inner.Box(), b, t, maxLength, dim, i)
    {
      PulledNext(inner.Box(), b, t, maxLength, dim, i);
      if b.hi[i] - inner.hi[i] < maxLength * 0.5 {
        inner.hi := inner.hi[i := b.hi[i]];
      } else {
        shrinkCt := shrinkCt + 1;
      }
      if inner.lo[i] - b.lo[i] < maxLength * 0.5 {
        inner.lo := inner.lo[i := b.lo[i]];
      } else {
        shrinkCt := shrinkCt + 1;
      }
    }
    shrink := shrinkCt >= 2;
  }

  lemma TightDim(pts: seq<Point>, s: seq<nat>, off: nat, n: nat, dim: nat, t: Rect)
    requires n >= 1 && Tight(pts, s, off, n, dim, t)
    ensures |t.lo| == |t.hi| == dim
  {
  }

  lemma PulledNext(r: Rect, b: Rect, t: Rect, longest: real, dim: nat, d: nat)
    requires Pulled(r, b, t, longest, dim, d) && d < dim
    ensures r.lo[d] == t.lo[d] && r.hi[d] == t.hi[d]
    ensures LargeHi(b, t, d, longest) <==> b.hi[d] - r.hi[d] >= longest * 0.5
    ensures LargeLo(b, t, d, longest) <==> r.lo[d] - b.lo[d] >= longest * 0.5
  {
  }

  /** selectDecomp, without the centroid rule. */
  method SelectDecomp(rule: ShrinkRule, pts: seq<Point>, pidx: array<nat>, off: nat, n: nat, dim: nat, b: Rect, inner: OrthRect)
    returns (shrink: bool, ghost t: Rect)
    requires n >= 1 && off + n <= pidx.Length && Fit(pts, pidx[..], dim) && IsBox(b, dim)
    modifies inner
    ensures shrink ==> rule.Simple? && Tight(pts, pidx[..], off, n, dim, t) && Shrinks(b, t, dim)
    ensures shrink ==> Pulled(inner.Box(), b, t, LongestTo(t, dim), dim, dim)
    ensures rule.Simple? ==> Tight(pts, pidx[..], off, n, dim, t) && shrink == Shrinks(b, t, dim)
    ensures rule.Simple? ==> Pulled(inner.Box(), b, t, LongestTo(t, dim), dim, dim)
  {
    match rule {
      case Never => shrink, t := false, b;
      case Simple => shrink, t := TrySimpleShrink(pts, pidx, off, n, dim, b, inner);
    }
  }

  // ---------- bd-trees ----------

  /** Every shrinking node has the trivial leaf outside. */
  predicate Hollow(t: Tree) {
    match t
    case Leaf(_, _) => true
    case Split(_, _, _, _, lo, hi) => Hollow(lo) && Hollow(hi)
    case Shrink(_, inner, outer) => Hollow(inner) && outer == TRIVIAL
  }

  /** No node shrinks the cell that a shrinking node has just made. */
  predicate Alternates(t: Tree) {
    match t
    case Leaf(_, _) => true
    case Split(_, _, _, _, lo, hi) => Alternates(lo) && Alternates(hi)
    case Shrink(_, inner, outer) => Alternates(inner) && !inner.Shrink? && Alternates(outer)
  }

  /** The simple rule would not shrink the cell b of these points. */
  ghost predicate Settled(pts: seq<Point>, s: seq<nat>, off: nat, n: nat, dim: nat, b: Rect)
    requires |b.lo| == |b.hi| == dim
  {
    n >= 1 ==> forall t: Rect :: Tight(pts, s, off, n, dim, t) ==> |t.lo| == |t.hi| == dim && !Shrinks(b, t, dim)
  }

  lemma TightUnique(pts: seq<Point>, s: seq<nat>, s': seq<nat>, off: nat, n: nat, dim: nat, t: Rect, t': Rect)
    requires n >= 1 && off + n <= |s| && Permuted(s, s', off, off + n)
    requires Tight(pts, s, off, n, dim, t) && Tight(pts, s', off, n, dim, t')
    ensures t == t'
  {
    hide Permuted, MinOf, MaxOf;
    forall d: nat | d < dim ensures t.lo[d] == t'.lo[d] && t.hi[d] == t'.hi[d] { ExtentPermuted(pts, s, s', off, n, d); }
    assert t.lo == t'.lo && t.hi == t'.hi;
  }

  /** After a shrink all points are in the inner box, which is settled. */
  lemma ShrunkIn(pts: seq<Point>, s0: seq<nat>, s1: seq<nat>, off: nat, n: nat, dim: nat, bsp: nat, b: Rect, t: Rect, r: Rect, nIn: nat)
    requires n > bsp && off + n <= |s0| && Fit(pts, s0, dim) && Fit(pts, s1, dim) && dim >= 1 && IsBox(b, dim) && Holds(pts, s0, off, n, b)
    requires Permuted(s0, s1, off, off + n) && Sparse(pts, s0, off, n, bsp)
    requires Tight(pts, s0, off, n, dim, t) && Pulled(r, b, t, LongestTo(t, dim), dim, dim)
    requires nIn <= n && forall i: nat :: off <= i < off + n && i < |s1| && s1[i] < |pts| ==> (Inside(r, pts[s1[i]]) <==> i < off + nIn)
    ensures nIn == n && Contains(b, r, dim) && Holds(pts, s1, off, n, r) && Settled(pts, s1, off, n, dim, r)
    ensures Sparse(pts, s1, off, n, bsp) && |s1| == |s0|
  {
    hide Permuted, Tight, Inside, Fit, Sparse, Shrinks, Pulled, LongestTo, Contains;
    OriginLength(s0, s1, off, off + n);
    TightDim(pts, s0, off, n, dim, t);
    TightLeast(pts, s0, off, n, dim, t, b);
    PulledBetween(r, b, t, LongestTo(t, dim), dim);
    TightLeast(pts, s0, off, n, dim, t, r);
    HoldsPermuted(pts, s0, s1, off, n, dim, r);
    FitAt(pts, s1, dim, off + n - 1);
    BoxOf(b, r, dim);
    SparseNotFlat(pts, s0, off, n, dim, bsp, t);
    ShrinksAgain(r, b, t, dim);
    forall t': Rect | Tight(pts, s1, off, n, dim, t') ensures |t'.lo| == |t'.hi| == dim && !Shrinks(r, t', dim) {
      TightUnique(pts, s0, s1, off, n, dim, t, t');
    }
    SparsePermuted(pts, s0, s1, off, n, bsp);
  }

  lemma ShrinkBuilt(pts: seq<Point>, s: seq<nat>, dim: nat, box: Rect, off: nat, r: Rect, inner: Tree)
    requires Contains(box, r, dim) && Built(inner, pts, s, dim, r, off) && Size(inner) >= 1
    ensures Built(Shrink(Bounds(r, box, dim), inner, TRIVIAL), pts, s, dim, box, off)
  {
    hide Cut, Bounds, Inside;
    BoundsRoundTrip(r, box, dim);
    var bnds := Bounds(r, box, dim);
    assert AllWithin(bnds, dim);
    assert Cut(box, bnds) == r;
    assert Built(TRIVIAL, pts, s, dim, box, off + Size(inner));
  }

  lemma ShrinkGrown(split: SplitRule, rule: ShrinkRule, pts: seq<Point>, s0: seq<nat>, s: seq<nat>, dim: nat, bsp: nat, box: Rect, off: nat, n: nat,
                    r: Rect, inner: Tree)
    requires off + n <= |s0| && Permuted(s0, s, off, off + n) && |s| == |s0| && Contains(box, r, dim)
    requires ShrinksTo(rule, pts, Bucket(s0, off, n), dim, box, r) && n > bsp && Size(inner) == n
    requires Grown(inner, split, rule, pts, s, dim, bsp, r, off)
    ensures Grown(Shrink(Bounds(r, box, dim), inner, TRIVIAL), split, rule, pts, s, dim, bsp, box, off)
  {
    hide Cut, Bounds, ShrinksTo, Bucket, Permuted;
    BoundsRoundTrip(r, box, dim);
    PermutedBucket(s0, s, off, off + n, off, n);
    LeafGrown(split, rule, pts, s, dim, bsp, box, off + n, TRIVIAL);
    assert AllWithin(Bounds(r, box, dim), dim);
  }

  /** rbd_tree.  That it terminates is the point of the last two requirements. */
  method RbdTree(pts: seq<Point>, pidx: array<nat>, off: nat, n: nat, dim: nat, bsp: nat, bndBox: OrthRect, splitter: SplitRule,
                 rule: ShrinkRule, ghost shrunk: bool)
    returns (t: Tree)
    requires off + n <= pidx.Length && Fit(pts, pidx[..], dim) && dim >= 1 && bsp >= 1
    requires IsBox(bndBox.Box(), dim) && Holds(pts, pidx[..], off, n, bndBox.Box())
    requires Apt(rule, pts, pidx[..], off, n, bsp)
    requires shrunk ==> Settled(pts, pidx[..], off, n, dim, bndBox.Box())
    modifies pidx, bndBox
    ensures bndBox.Box() == old(bndBox.Box())
    ensures Permuted(old(pidx[..]), pidx[..], off, off + n) && Fit(pts, pidx[..], dim)
    ensures Built(t, pts, pidx[..], dim, bndBox.Box(), off) && Size(t) == n && Buckets(t, bsp)
    ensures Grown(t, splitter, rule, pts, pidx[..], dim, bsp, bndBox.Box(), off)
    ensures Hollow(t) && Alternates(t) && (shrunk ==> !t.Shrink?) && (rule.Never? ==> Plain(t)) && (n == 0 ==> t == TRIVIAL)
    decreases n, !shrunk
  {
    hide Permuted, Fit, Splits, Holds, Built, Sparse, Settled, Tight, Pulled, LongestTo, Shrinks, Inside, Contains, Bounds, Grown, Stays, ShrinksTo, Bucket;
    ghost var s0, box := pidx[..], bndBox.Box();
    var innerBox := new OrthRect(Rect([], []));
    if n <= bsp {
      SamePermuted(s0, off, off + n);
      LeafBuilt(pts, s0, dim, box, off, n);
      t := if n == 0 then TRIVIAL else Leaf(off, n);
      LeafGrown(splitter, rule, pts, s0, dim, bsp, box, off, t);
      return;
    }
    var shrink, tight := SelectDecomp(rule, pts, pidx, off, n, dim, bndBox.Box(), innerBox);
    if rule.Simple? {
      TightDim(pts, s0, off, n, dim, tight);
      Decided(rule, pts, s0, off, n, dim, box, tight, innerBox.Box());
    }
    if !shrink {
      NeverStays(rule, pts, Bucket(s0, off, n), dim, box);
      t := RbdSplit(pts, pidx, off, n, dim, bsp, bndBox, splitter, rule);
    } else {
      if shrunk { SettledAt(pts, s0, off, n, dim, box, tight); }
      ghost var r := innerBox.Box();
      var nIn := BoxSplit(pts, pidx, off, n, dim, innerBox.Box());
      ghost var s1 := pidx[..];
      assert forall i: nat :: i < |s1| ==> s1[i] == pidx[i];
      ShrunkIn(pts, s0, s1, off, n, dim, bsp, box, tight, r, nIn);
      BoxOf(box, r, dim);
      var inner := RbdTree(pts, pidx, off, nIn, dim, bsp, innerBox, splitter, rule, true);
      ghost var s2 := pidx[..];
      Trans(s0, s1, s2, off, off + n);
      assert nIn == n;
      NoPoints(pts, s2, off + nIn, bsp, box);
      var outer := RbdTree(pts, pidx, off + nIn, n - nIn, dim, bsp, bndBox, splitter, rule, false);
      ghost var s3 := pidx[..];
      NoChange(s2, s3, off + n);
      ShrinkBuilt(pts, s2, dim, box, off, r, inner);
      ShrinkGrown(splitter, rule, pts, s0, s2, dim, bsp, box, off, n, r, inner);
      var bnds := Box2Bnds(innerBox.Box(), bndBox.Box(), dim);
      t := Shrink(bnds[..], inner, outer);
    }
  }

  /** The splitting half of rbd_tree. */
  method RbdSplit(pts: seq<Point>, pidx: array<nat>, off: nat, n: nat, dim: nat, bsp: nat, bndBox: OrthRect, splitter: SplitRule,
                  rule: ShrinkRule)
    returns (t: Tree)
    requires off + n <= pidx.Length && Fit(pts, pidx[..], dim) && dim >= 1 && n > bsp >= 1
    requires IsBox(bndBox.Box(), dim) && Holds(pts, pidx[..], off, n, bndBox.Box())
    requires Apt(rule, pts, pidx[..], off, n, bsp) && Stays(rule, pts, Bucket(pidx[..], off, n), dim, bndBox.Box())
    modifies pidx, bndBox
    ensures bndBox.Box() == old(bndBox.Box())
    ensures Permuted(old(pidx[..]), pidx[..], off, off + n) && Fit(pts, pidx[..], dim)
    ensures Built(t, pts, pidx[..], dim, bndBox.Box(), off) && Size(t) == n && Buckets(t, bsp)
    ensures Grown(t, splitter, rule, pts, pidx[..], dim, bsp, bndBox.Box(), off)
    ensures Hollow(t) && Alternates(t) && t.Split? && (rule.Never? ==> Plain(t))
    decreases n, false, 0
  {
    hide Permuted, Fit, Splits, Holds, Built, Apt, Sparse, Settled, IsBox, Size, Buckets, Hollow, Alternates, Plain, Grown, Stays, CutBy, Bucket;
    ghost var s0, box := pidx[..], bndBox.Box();
    var cd, cv, nLo := SplitBy(splitter, pts, pidx, off, n, dim, bndBox.Box());
    ghost var s1 := pidx[..];
    SplitIn(pts, s1, off, n, box, cd, cv, nLo);
    HoldsPermuted(pts, s0, s1, off, n, dim, box);
    SplitHolds(pts, s1, off, n, dim, box, cd, cv, nLo);
    AptPart(rule, pts, s0, s1, off, n, bsp, off, nLo);
    var lv, hv := bndBox.lo[cd], bndBox.hi[cd];
    bndBox.hi := bndBox.hi[cd := cv];
    assert bndBox.Box() == WithSide(box, cd, lv, cv) && pidx[..] == s1;
    var lo := RbdTree(pts, pidx, off, nLo, dim, bsp, bndBox, splitter, rule, false);
    ghost var s2 := pidx[..];
    LowerDone(rule, pts, s0, s1, s2, off, n, nLo, bsp, WithSide(box, cd, cv, hv));
    bndBox.hi := bndBox.hi[cd := hv];
    bndBox.lo := bndBox.lo[cd := cv];
    assert bndBox.Box() == WithSide(box, cd, cv, hv) && pidx[..] == s2;
    var hi := RbdTree(pts, pidx, off + nLo, n - nLo, dim, bsp, bndBox, splitter, rule, false);
    ghost var s3 := pidx[..];
    UpperDone(s0, s2, s3, off, nLo, n);
    SplitBuilt(pts, s2, s3, dim, box, off, cd, cv, lo, hi);
    bndBox.lo := bndBox.lo[cd := lv];
    assert bndBox.Box() == box && pidx[..] == s3;
    t := Split(cd, cv, lv, hv, lo, hi);
    SplitShape(t, bsp);
    SplitNests(t);
    PermutedBucket(s0, s1, off, off + n, off, n);
    SplitGrown(splitter, rule, pts, s1, s2, s3, dim, bsp, box, off, n, nLo, t);
  }

  /** When the lower part has been built, the upper one is as it was. */
  lemma LowerDone(rule: ShrinkRule, pts: seq<Point>, s0: seq<nat>, s1: seq<nat>, s2: seq<nat>, off: nat, n: nat, nLo: nat, bsp: nat, b: Rect)
    requires nLo <= n && off + n <= |s0| && Permuted(s0, s1, off, off + n) && |s1| == |s0| && Permuted(s1, s2, off, off + nLo) && |s2| == |s0|
    requires Holds(pts, s1, off + nLo, n - nLo, b) && Apt(rule, pts, s0, off, n, bsp)
    ensures Permuted(s0, s2, off, off + n) && Holds(pts, s2, off + nLo, n - nLo, b) && Apt(rule, pts, s2, off + nLo, n - nLo, bsp)
  {
    hide Permuted, Holds, Apt;
    UpperHalf(pts, s1, s2, off, n, nLo, b);
    Wider(s1, s2, off, off + nLo, off, off + n);
    Trans(s0, s1, s2, off, off + n);
    AptPart(rule, pts, s0, s2, off, n, bsp, off + nLo, n - nLo);
  }

  /** When the upper part has been built, the lower one is as it was. */
  lemma UpperDone(s0: seq<nat>, s2: seq<nat>, s3: seq<nat>, off: nat, nLo: nat, n: nat)
    requires nLo <= n && off + n <= |s0| && Permuted(s0, s2, off, off + n) && |s2| == |s0| && Permuted(s2, s3, off + nLo, off + nLo + (n - nLo)) && |s3| == |s0|
    ensures Permuted(s0, s3, off, off + n) && s3[off..off + nLo] == s2[off..off + nLo]
  {
    SamePermuted(s2, off, off + nLo);
    Stages(s0, s2, s2, s3, off, off + nLo, off + n);
  }

  lemma SplitNests(t: Tree)
    requires t.Split?
    ensures Hollow(t) <==> Hollow(t.lo) && Hollow(t.hi)
    ensures Alternates(t) <==> Alternates(t.lo) && Alternates(t.hi)
  {
  }

  lemma SettledAt(pts: seq<Point>, s: seq<nat>, off: nat, n: nat, dim: nat, b: Rect, t: Rect)
    requires n >= 1 && |b.lo| == |b.hi| == dim && Settled(pts, s, off, n, dim, b) && Tight(pts, s, off, n, dim, t)
    ensures |t.lo| == |t.hi| == dim && !Shrinks(b, t, dim)
  {
  }

  lemma BoxOf(b: Rect, r: Rect, dim: nat)
    requires Contains(b, r, dim)
    ensures IsBox(r, dim)
  {
  }

  lemma NoPoints(pts: seq<Point>, s: seq<nat>, off: nat, bsp: nat, b: Rect)
    requires off <= |s|
    ensures Holds(pts, s, off, 0, b) && Sparse(pts, s, off, 0, bsp)
  {
    assert s[off..off] == [];
  }

  lemma NoChange(s: seq<nat>, t: seq<nat>, a: nat)
    requires a <= |s| && Permuted(s, t, a, a)
    ensures t == s
  {
    assert s == s[..a] + s[a..];
    assert t == t[..a] + t[a..];
  }
}
