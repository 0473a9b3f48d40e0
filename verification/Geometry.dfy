// Points, boxes and half-spaces (ANN.cpp, ANNx.h and the box routines of kd_util.cpp), with exact real
// coordinates and squared distances.
module Geometry {
  type Point = seq<real>

  /** ANN_POW */
  function Sq(x: real): real { x * x }

  lemma SqMono(a: real, b: real)
    requires 0.0 <= a <= b
    ensures 0.0 <= Sq(a) <= Sq(b)
  {
    assert b * b - a * a == (b - a) * (b + a);
  }

  lemma SqSign(a: real)
    ensures Sq(a) >= 0.0 && Sq(-a) == Sq(a)
  {
  }

  // ---------- distances ----------

  /** The squared distance over the first d coordinates. */
  function DistTo(p: Point, q: Point, d: nat): real
    requires d <= |p| && d <= |q|
  {
    if d == 0 then 0.0 else DistTo(p, q, d - 1) + Sq(p[d - 1] - q[d - 1])
  }

  function Dist(p: Point, q: Point): real
    requires |p| == |q|
  {
    DistTo(p, q, |q|)
  }

  /** The sum of the squared differences, coordinate by coordinate. */
  function Metric(p: Point, q: Point): real {
    if p == [] || q == [] then 0.0 else (p[0] - q[0]) * (p[0] - q[0]) + Metric(p[1..], q[1..])
  }

  lemma DistOne(a: real, b: real)
    ensures Dist([a], [b]) == (a - b) * (a - b)
  {
    assert DistTo([a], [b], 0) == 0.0;
  }

  /** The distance in a product of spaces is the sum of the distances. */
  lemma {:induction false} DistJoin(p: Point, p': Point, q: Point, q': Point)
    requires |p| == |q| && |p'| == |q'|
    ensures Dist(p + p', q + q') == Dist(p, q) + Dist(p', q')
    decreases |p'|
  {
    hide Sq;
    var n := |p'|;
    if n == 0 {
      assert p + p' == p && q + q' == q;
    } else {
      DistJoin(p, p'[..n - 1], q, q'[..n - 1]);
      DistLocal(p + p', q + q', p + p'[..n - 1], q + q'[..n - 1], |p| + n - 1);
      DistLocal(p', q', p'[..n - 1], q'[..n - 1], n - 1);
      assert (p + p')[|p| + n - 1] == p'[n - 1] && (q + q')[|p| + n - 1] == q'[n - 1];
    }
  }

  lemma {:induction false} DistLocal(p: Point, q: Point, p': Point, q': Point, d: nat)
    requires d <= |p| && d <= |q| && d <= |p'| && d <= |q'|
    requires forall i :: 0 <= i < d ==> p[i] == p'[i] && q[i] == q'[i]
    ensures DistTo(p, q, d) == DistTo(p', q', d)
  {
    hide Sq;
    if d > 0 { DistLocal(p, q, p', q', d - 1); }
  }

  lemma {:induction false} DistMetric(p: Point, q: Point)
    requires |p| == |q|
    ensures Dist(p, q) == Metric(p, q) >= 0.0
    decreases |p|
  {
    hide Sq, Dist;
    if p == [] {
      DistNone(p, q);
    } else {
      DistMetric(p[1..], q[1..]);
      DistOne(p[0], q[0]);
      DistJoin([p[0]], p[1..], [q[0]], q[1..]);
      assert p == [p[0]] + p[1..] && q == [q[0]] + q[1..];
      SquareSign(p[0] - q[0]);
    }
  }

  lemma DistNone(p: Point, q: Point)
    requires p == [] && q == []
    ensures Dist(p, q) == 0.0
  {
  }

  lemma SquareSign(x: real)
    ensures x * x >= 0.0
  {
  }

  /** annDist */
  method AnnDist(p: Point, q: Point) returns (dist: real)
    requires |p| == |q|
    ensures dist == Dist(p, q) == Metric(p, q) >= 0.0
  {
    DistMetric(p, q);
    dist := 0.0;
    for d := 0 to |q|
      invariant dist == DistTo(p, q, d) >= 0.0
    {
      SqSign(p[d] - q[d]);
      dist := dist + Sq(p[d] - q[d]);
    }
  }

  lemma {:induction false} DistGrows(p: Point, q: Point, c: nat, d: nat)
    requires c <= d <= |p| && d <= |q|
    ensures 0.0 <= DistTo(p, q, c) <= DistTo(p, q, d)
    decreases d
  {
    if d > 0 {
      SqSign(p[d - 1] - q[d - 1]);
      DistGrows(p, q, if c < d then c else d - 1, d - 1);
    }
  }

  // ---------- boxes ----------

  /** ANNorthRect */
  datatype Rect = Rect(lo: Point, hi: Point)

  predicate IsBox(b: Rect, dim: nat) {
    |b.lo| == |b.hi| == dim && forall i :: 0 <= i < dim ==> b.lo[i] <= b.hi[i]
  }

  predicate Inside(b: Rect, p: Point) {
    |b.lo| == |b.hi| == |p| && forall i :: 0 <= i < |p| ==> b.lo[i] <= p[i] <= b.hi[i]
  }

  /** ANNorthRect::inside */
  method IsInside(b: Rect, p: Point) returns (r: bool)
    requires |b.lo| == |b.hi| == |p|
    ensures r <==> Inside(b, p)
  {
    for i := 0 to |p|
      invariant forall j :: 0 <= j < i ==> b.lo[j] <= p[j] <= b.hi[j]
    {
      if p[i] < b.lo[i] || p[i] > b.hi[i] { return false; }
    }
    r := true;
  }

  /** The distance of a coordinate from an interval. */
  function Gap(x: real, l: real, h: real): real {
    if x < l then l - x else if x > h then x - h else 0.0
  }

  function BoxDistTo(q: Point, b: Rect, d: nat): real
    requires d <= |q| && d <= |b.lo| && d <= |b.hi|
  {
    if d == 0 then 0.0 else BoxDistTo(q, b, d - 1) + Sq(Gap(q[d - 1], b.lo[d - 1], b.hi[d - 1]))
  }

  function BoxDist(q: Point, b: Rect): real
    requires |b.lo| == |b.hi| == |q|
  {
    BoxDistTo(q, b, |q|)
  }

  /** The point of a box nearest to q. */
  function Clamp(q: Point, b: Rect): (c: Point)
    requires |b.lo| == |b.hi| == |q|
    ensures |c| == |q|
  {
    seq(|q|, i requires 0 <= i < |q| => if q[i] < b.lo[i] then b.lo[i] else if q[i] > b.hi[i] then b.hi[i] else q[i])
  }

  lemma {:induction false} ClampDist(q: Point, b: Rect, d: nat)
    requires |b.lo| == |b.hi| == |q| && d <= |q|
    ensures BoxDistTo(q, b, d) == DistTo(Clamp(q, b), q, d)
  {
    hide Sq;
    if d > 0 {
      ClampDist(q, b, d - 1);
      SqSign(b.lo[d - 1] - q[d - 1]);
      SqSign(b.hi[d - 1] - q[d - 1]);
      SqSign(Clamp(q, b)[d - 1] - q[d - 1]);
      assert q[d - 1] - b.hi[d - 1] == -(b.hi[d - 1] - q[d - 1]);
    }
  }

  /** The distance of a box is the distance of its nearest point. */
  lemma BoxNearest(q: Point, b: Rect)
    requires IsBox(b, |q|)
    ensures Inside(b, Clamp(q, b)) && BoxDist(q, b) == Metric(Clamp(q, b), q)
    ensures forall p: Point :: Inside(b, p) ==> BoxDist(q, b) <= Metric(p, q)
  {
    hide Sq, Metric;
    ClampDist(q, b, |q|);
    DistMetric(Clamp(q, b), q);
    forall p: Point | Inside(b, p) ensures BoxDist(q, b) <= Metric(p, q) {
      BoxBelow(q, b, p, |q|);
      DistMetric(p, q);
    }
  }

  /** annBoxDistance: the distance of the nearest point of the box. */
  method AnnBoxDistance(q: Point, b: Rect) returns (dist: real)
    requires |b.lo| == |b.hi| == |q|
    ensures dist == BoxDist(q, b)
    ensures IsBox(b, |q|) ==> (exists c: Point :: Inside(b, c) && dist == Metric(c, q)) && forall p: Point :: Inside(b, p) ==> dist <= Metric(p, q)
  {
    if IsBox(b, |q|) { BoxNearest(q, b); }
    dist := 0.0;
    for d := 0 to |q|
      invariant dist == BoxDistTo(q, b, d)
    {
      if q[d] < b.lo[d] {
        dist := dist + Sq(b.lo[d] - q[d]);
      } else if q[d] > b.hi[d] {
        dist := dist + Sq(q[d] - b.hi[d]);
      }
    }
  }

  /** No point of a box is closer than the box. */
  lemma {:induction false} BoxBelow(q: Point, b: Rect, p: Point, d: nat)
    requires |b.lo| == |b.hi| == |q| == |p| && Inside(b, p) && d <= |q|
    ensures 0.0 <= BoxDistTo(q, b, d) <= DistTo(p, q, d)
  {
    if d > 0 {
      BoxBelow(q, b, p, d - 1);
      var x, l, h, y := q[d - 1], b.lo[d - 1], b.hi[d - 1], p[d - 1];
      if x < l {
        SqMono(l - x, y - x);
      } else if x > h {
        SqMono(x - h, x - y);
        SqSign(x - y);
        assert y - x == -(x - y);
      } else {
        SqSign(y - x);
      }
    }
  }

  /** A box with one side interval replaced. */
  function WithSide(b: Rect, cd: nat, l: real, h: real): Rect
    requires cd < |b.lo| && cd < |b.hi|
  {
    Rect(b.lo[cd := l], b.hi[cd := h])
  }

  /** Changing one side changes one term of the distance. */
  lemma {:induction false} SideDist(q: Point, b: Rect, cd: nat, l: real, h: real, d: nat)
    requires |b.lo| == |b.hi| == |q| && cd < |q| && d <= |q|
    ensures BoxDistTo(q, WithSide(b, cd, l, h), d) ==
      BoxDistTo(q, b, d) + if cd < d then Sq(Gap(q[cd], l, h)) - Sq(Gap(q[cd], b.lo[cd], b.hi[cd])) else 0.0
  {
    hide Sq;
    if d > 0 { SideDist(q, b, cd, l, h, d - 1); }
  }

  // ---------- half-spaces ----------

  /** ANNorthHalfSpace; `upper` stands for sd == -1. */
  datatype HalfSpace = HalfSpace(cd: nat, cv: real, upper: bool)
  {
    predicate Out(q: Point)
      requires cd < |q|
    {
      if upper then q[cd] > cv else q[cd] < cv
    }

    function Project(q: Point): Point
      requires cd < |q|
    {
      if Out(q) then q[cd := cv] else q
    }
  }

  predicate AllWithin(bnds: seq<HalfSpace>, dim: nat) {
    forall i :: 0 <= i < |bnds| ==> bnds[i].cd < dim
  }

  /** The squared distances to the half-spaces that q lies outside of. */
  function OutDist(bnds: seq<HalfSpace>, q: Point): real
    requires AllWithin(bnds, |q|)
  {
    if bnds == [] then 0.0
    else
      var h := bnds[|bnds| - 1];
      OutDist(bnds[..|bnds| - 1], q) + if h.Out(q) then Sq(q[h.cd] - h.cv) else 0.0
  }

  /** The sides of `inner` that lie strictly inside `b`, over the first d dimensions. */
  function Bounds(inner: Rect, b: Rect, d: nat): (bnds: seq<HalfSpace>)
    requires d <= |inner.lo| && d <= |inner.hi| && d <= |b.lo| && d <= |b.hi|
    ensures AllWithin(bnds, d)
  {
    if d == 0 then []
    else
      Bounds(inner, b, d - 1)
      + (if inner.lo[d - 1] > b.lo[d - 1] then [HalfSpace(d - 1, inner.lo[d - 1], false)] else [])
      + (if inner.hi[d - 1] < b.hi[d - 1] then [HalfSpace(d - 1, inner.hi[d - 1], true)] else [])
  }

  /** annBox2Bnds: count the sides, then fill an array of just that size. */
  method Box2Bnds(inner: Rect, b: Rect, dim: nat) returns (bnds: array<HalfSpace>)
    requires |inner.lo| == |inner.hi| == |b.lo| == |b.hi| == dim
    ensures fresh(bnds) && bnds[..] == Bounds(inner, b, dim)
  {
    var nBnds := 0;
    for i := 0 to dim
      invariant nBnds == |Bounds(inner, b, i)|
    {
      if inner.lo[i] > b.lo[i] { nBnds := nBnds + 1; }
      if inner.hi[i] < b.hi[i] { nBnds := nBnds + 1; }
    }
    bnds := new HalfSpace[nBnds](_ => HalfSpace(0, 0.0, false));
    var j := 0;
    for i := 0 to dim
      invariant j == |Bounds(inner, b, i)| <= bnds.Length && bnds[..j] == Bounds(inner, b, i)
    {
      BoundsGrow(inner, b, i + 1, dim);
      if inner.lo[i] > b.lo[i] {
        bnds[j] := HalfSpace(i, inner.lo[i], false);
        j := j + 1;
      }
      if inner.hi[i] < b.hi[i] {
        bnds[j] := HalfSpace(i, inner.hi[i], true);
        j := j + 1;
      }
    }
    assert bnds[..j] == bnds[..];
  }

  lemma {:induction false} BoundsGrow(inner: Rect, b: Rect, c: nat, d: nat)
    requires c <= d <= |inner.lo| && d <= |inner.hi| && d <= |b.lo| && d <= |b.hi|
    ensures |Bounds(inner, b, c)| <= |Bounds(inner, b, d)|
    decreases d
  {
    if c < d { BoundsGrow(inner, b, c, d - 1); }
  }

  /** annBnds2Box: the box b cut down by half-spaces. */
  function Cut(b: Rect, bnds: seq<HalfSpace>): (r: Rect)
    requires |b.lo| == |b.hi| && AllWithin(bnds, |b.lo|)
    ensures |r.lo| == |r.hi| == |b.lo|
  {
    if bnds == [] then b
    else
      var r := Cut(b, bnds[..|bnds| - 1]);
      var h := bnds[|bnds| - 1];
      Rect(h.Project(r.lo), h.Project(r.hi))
  }

  method Bnds2Box(b: Rect, bnds: seq<HalfSpace>) returns (inner: Rect)
    requires |b.lo| == |b.hi| && AllWithin(bnds, |b.lo|)
    ensures inner == Cut(b, bnds)
  {
    inner := b;
    for i := 0 to |bnds|
      invariant inner == Cut(b, bnds[..i])
    {
      assert bnds[..i + 1][..i] == bnds[..i];
      inner := Rect(bnds[i].Project(inner.lo), bnds[i].Project(inner.hi));
    }
    assert bnds[..|bnds|] == bnds;
  }

  predicate Contains(b: Rect, inner: Rect, dim: nat) {
    IsBox(b, dim) && IsBox(inner, dim) && forall i :: 0 <= i < dim ==> b.lo[i] <= inner.lo[i] && inner.hi[i] <= b.hi[i]
  }

  lemma CutNext(b: Rect, bnds: seq<HalfSpace>, h: HalfSpace)
    requires |b.lo| == |b.hi| && AllWithin(bnds, |b.lo|) && h.cd < |b.lo|
    ensures Cut(b, bnds + [h]) == Rect(h.Project(Cut(b, bnds).lo), h.Project(Cut(b, bnds).hi))
  {
    assert (bnds + [h])[..|bnds|] == bnds;
  }

  /** A side that may or may not be there. */
  function Side(c: bool, h: HalfSpace): (s: seq<HalfSpace>)
    ensures AllWithin(s, h.cd + 1)
  {
    if c then [h] else []
  }

  lemma BoundsNext(inner: Rect, b: Rect, d: nat)
    requires d < |inner.lo| && d < |inner.hi| && d < |b.lo| && d < |b.hi|
    ensures Bounds(inner, b, d + 1) == Bounds(inner, b, d)
      + Side(inner.lo[d] > b.lo[d], HalfSpace(d, inner.lo[d], false)) + Side(inner.hi[d] < b.hi[d], HalfSpace(d, inner.hi[d], true))
  {
  }

  lemma CutSide(b: Rect, bnds: seq<HalfSpace>, c: bool, h: HalfSpace)
    requires |b.lo| == |b.hi| && AllWithin(bnds, |b.lo|) && h.cd < |b.lo|
    ensures Cut(b, bnds + Side(c, h)) == if c then Rect(h.Project(Cut(b, bnds).lo), h.Project(Cut(b, bnds).hi)) else Cut(b, bnds)
  {
    if c { CutNext(b, bnds, h); } else { assert bnds + [] == bnds; }
  }

  /** r agrees with inner in the first d dimensions and with b in the others. */
  predicate Blend(r: Rect, inner: Rect, b: Rect, dim: nat, d: nat)
    requires |r.lo| == |r.hi| == dim && |inner.lo| == |inner.hi| == dim && |b.lo| == |b.hi| == dim
  {
    forall i :: 0 <= i < dim ==> r.lo[i] == (if i < d then inner.lo[i] else b.lo[i]) && r.hi[i] == (if i < d then inner.hi[i] else b.hi[i])
  }

  /** Converting a box to bounds and back gives the box. */
  lemma {:induction false} CutBounds(inner: Rect, b: Rect, dim: nat, d: nat)
    requires Contains(b, inner, dim) && d <= dim
    ensures Blend(Cut(b, Bounds(inner, b, d)), inner, b, dim, d)
  {
    hide Cut, Bounds;
    if d == 0 {
      CutNothing(inner, b);
    } else {
      var i := d - 1;
      CutBounds(inner, b, dim, i);
      BoundsNext(inner, b, i);
      var l, u := HalfSpace(i, inner.lo[i], false), HalfSpace(i, inner.hi[i], true);
      CutSide(b, Bounds(inner, b, i), inner.lo[i] > b.lo[i], l);
      CutSide(b, Bounds(inner, b, i) + Side(inner.lo[i] > b.lo[i], l), inner.hi[i] < b.hi[i], u);
    }
  }

  lemma CutNothing(inner: Rect, b: Rect)
    requires |inner.lo| == |inner.hi| == |b.lo| == |b.hi|
    ensures Bounds(inner, b, 0) == [] && Cut(b, []) == b
  {
  }

  lemma BoundsRoundTrip(inner: Rect, b: Rect, dim: nat)
    requires Contains(b, inner, dim)
    ensures Cut(b, Bounds(inner, b, dim)) == inner
  {
    CutBounds(inner, b, dim, dim);
    var r := Cut(b, Bounds(inner, b, dim));
    assert r.lo == inner.lo && r.hi == inner.hi;
  }

  lemma OutSide(bnds: seq<HalfSpace>, c: bool, h: HalfSpace, q: Point)
    requires AllWithin(bnds, |q|) && h.cd < |q|
    ensures OutDist(bnds + Side(c, h), q) == OutDist(bnds, q) + if c && h.Out(q) then Sq(q[h.cd] - h.cv) else 0.0
  {
    hide Sq;
    if c { assert (bnds + [h])[..|bnds|] == bnds; } else { assert bnds + [] == bnds; }
  }

  /** The distance a shrinking node adds up never exceeds the distance to its inner box; sides that the
      inner box shares with the outer one are not counted. */
  lemma {:induction false} OutBelow(inner: Rect, b: Rect, q: Point, d: nat)
    requires Contains(b, inner, |q|) && d <= |q|
    ensures 0.0 <= OutDist(Bounds(inner, b, d), q) <= BoxDistTo(q, inner, d)
  {
    hide OutDist, Bounds, Sq, BoxDistTo;
    if d == 0 {
      CutNothing(inner, b);
      NoDist(q, inner);
    } else {
      var i := d - 1;
      OutBelow(inner, b, q, i);
      BoundsNext(inner, b, i);
      var l, u := HalfSpace(i, inner.lo[i], false), HalfSpace(i, inner.hi[i], true);
      OutSide(Bounds(inner, b, i), inner.lo[i] > b.lo[i], l, q);
      OutSide(Bounds(inner, b, i) + Side(inner.lo[i] > b.lo[i], l), inner.hi[i] < b.hi[i], u, q);
      OneSide(q, inner, b, i);
    }
  }

  lemma NoDist(q: Point, b: Rect)
    ensures OutDist([], q) == 0.0 && BoxDistTo(q, b, 0) == 0.0
  {
  }

  /** What one dimension adds. */
  lemma OneSide(q: Point, inner: Rect, b: Rect, i: nat)
    requires Contains(b, inner, |q|) && i < |q|
    ensures BoxDistTo(q, inner, i + 1) == BoxDistTo(q, inner, i) + Sq(Gap(q[i], inner.lo[i], inner.hi[i]))
    ensures var x, l, h := q[i], inner.lo[i], inner.hi[i];
      0.0 <= (if l > b.lo[i] && x < l then Sq(x - l) else 0.0) + (if h < b.hi[i] && x > h then Sq(x - h) else 0.0) <= Sq(Gap(x, l, h))
  {
    hide Sq;
    var x, l, h := q[i], inner.lo[i], inner.hi[i];
    SqSign(Gap(x, l, h));
    SqSign(x - l);
    assert l - x == -(x - l);
  }

  /** The bounds tell which points of the outer box are in the inner one. */
  lemma {:induction false} BoundsTell(inner: Rect, b: Rect, p: Point, d: nat)
    requires |inner.lo| == |inner.hi| == |p| && Inside(b, p) && d <= |p|
    ensures (forall i :: 0 <= i < d ==> inner.lo[i] <= p[i] <= inner.hi[i]) <==>
      forall j {:trigger Bounds(inner, b, d)[j]} :: 0 <= j < |Bounds(inner, b, d)| ==> !Bounds(inner, b, d)[j].Out(p)
  {
    if d > 0 {
      var i := d - 1;
      BoundsTell(inner, b, p, i);
      BoundsNext(inner, b, i);
      var l, u := HalfSpace(i, inner.lo[i], false), HalfSpace(i, inner.hi[i], true);
      var s0 := Bounds(inner, b, i);
      var s1 := s0 + Side(inner.lo[i] > b.lo[i], l);
      OutAppend(s0, inner.lo[i] > b.lo[i], l, p);
      OutAppend(s1, inner.hi[i] < b.hi[i], u, p);
    }
  }

  lemma OutAppend(s: seq<HalfSpace>, c: bool, h: HalfSpace, p: Point)
    requires AllWithin(s, |p|) && h.cd < |p|
    ensures var t := s + Side(c, h);
      (forall j :: 0 <= j < |t| ==> !t[j].Out(p)) <==> (forall j :: 0 <= j < |s| ==> !s[j].Out(p)) && (c ==> !h.Out(p))
  {
    var t := s + Side(c, h);
    assert forall j :: 0 <= j < |s| ==> t[j] == s[j];
    assert c ==> t[|s|] == h;
  }

  /** For a query in the outer box it is that distance. */
  lemma {:induction false} OutExact(inner: Rect, b: Rect, q: Point, d: nat)
    requires Contains(b, inner, |q|) && Inside(b, q) && d <= |q|
    ensures OutDist(Bounds(inner, b, d), q) == BoxDistTo(q, inner, d)
  {
    hide OutDist, Bounds, Sq, BoxDistTo;
    if d == 0 {
      CutNothing(inner, b);
      NoDist(q, inner);
    } else {
      var i := d - 1;
      OutExact(inner, b, q, i);
      BoundsNext(inner, b, i);
      var l, u := HalfSpace(i, inner.lo[i], false), HalfSpace(i, inner.hi[i], true);
      OutSide(Bounds(inner, b, i), inner.lo[i] > b.lo[i], l, q);
      OutSide(Bounds(inner, b, i) + Side(inner.lo[i] > b.lo[i], l), inner.hi[i] < b.hi[i], u, q);
      OneSide(q, inner, b, i);
      SqNone();
      SqSign(q[i] - inner.lo[i]);
      assert inner.lo[i] - q[i] == -(q[i] - inner.lo[i]);
    }
  }

  lemma SqNone()
    ensures Sq(0.0) == 0.0
  {
  }
}
