// What a search may leave out, and why its answer is right all the same: the log of the insertions into the
// k-set against the linear scan of ANNbruteForce (brute.cpp).
module Neighbours {
  import opened Geometry
  import opened PointSplit
  import opened MinK
  import opened AnnTree

  /** The squared distance of point x from q. */
  function DistOf(pts: seq<Point>, q: Point, x: nat): real {
    if x < |pts| && |pts[x]| == |q| then Dist(pts[x], q) else 0.0
  }

  lemma DistOfSign(pts: seq<Point>, q: Point, x: nat)
    ensures DistOf(pts, q, x) >= 0.0
  {
    if x < |pts| && |pts[x]| == |q| { DistGrows(pts[x], q, 0, |q|); }
  }

  /** What brute force inserts: every point, in order. */
  function Everyone(pts: seq<Point>, q: Point, n: nat): (s: seq<Node>)
    ensures |s| == n
  {
    if n == 0 then [] else Everyone(pts, q, n - 1) + [Node(DistOf(pts, q, n - 1), n - 1)]
  }

  /** The points that a list tells of. */
  ghost function Infos(log: seq<Node>): multiset<nat> {
    if log == [] then multiset{} else Infos(log[..|log| - 1]) + multiset{log[|log| - 1].info}
  }

  /** Keys are the distances of their points. */
  ghost predicate Sound(pts: seq<Point>, q: Point, log: seq<Node>) {
    forall x :: x in log ==> x.key == DistOf(pts, q, x.info)
  }

  // ---------- what may be left out ----------

  /** The k nearest points, or all within a squared radius. */
  datatype Goal = Nearest(k: nat) | Within(sqRad: real)

  /** The key of the k-th item, if there are k. */
  function KthKey(k: nat, log: seq<Node>): Key {
    if 1 <= k <= |log| then Finite(Sort(log)[k - 1].key) else Infinite
  }

  /** A point at distance d does not matter. */
  predicate Spared(goal: Goal, maxErr: real, log: seq<Node>, d: real) {
    match goal
    case Nearest(k) => !KthKey(k, log).Above(maxErr * d)
    case Within(r) => maxErr * d > r
  }

  /** After the visits, and with these insertions: no point was inserted twice or without a visit, and
      visited points that were not inserted do not matter. */
  ghost predicate Progress(goal: Goal, maxErr: real, pts: seq<Point>, q: Point, log: seq<Node>, visited: multiset<nat>) {
    && Sound(pts, q, log) && Infos(log) <= visited
    && (forall x: nat :: x in visited ==> x in Infos(log) || Spared(goal, maxErr, log, DistOf(pts, q, x)))
    && (goal.Within? ==> forall x :: x in log ==> x.key <= goal.sqRad)
  }

  lemma NoProgress(goal: Goal, maxErr: real, pts: seq<Point>, q: Point)
    ensures Progress(goal, maxErr, pts, q, [], multiset{})
  {
  }

  /** The k-th key never grows. */
  lemma KthFalls(k: nat, log: seq<Node>, x: Node)
    requires 1 <= k <= |log|
    ensures KthKey(k, log + [x]).v <= KthKey(k, log).v
  {
    hide Sort, Insert, Sorted, CountLe;
    var t := Sort(log)[k - 1].key;
    SortSorted(log);
    SortSorted(log + [x]);
    SortNext(log, x);
    CountInsert(Sort(log), x, t);
    Rank(Sort(log), k - 1, t);
    Rank(Sort(log + [x]), k - 1, t);
  }

  lemma SparedStays(goal: Goal, maxErr: real, log: seq<Node>, x: Node, d: real)
    requires Spared(goal, maxErr, log, d)
    ensures Spared(goal, maxErr, log + [x], d)
  {
    hide Sort;
    match goal {
      case Nearest(k) => KthFalls(k, log, x);
      case Within(_) =>
    }
  }

  lemma InfosNext(log: seq<Node>, x: Node)
    ensures Infos(log + [x]) == Infos(log) + multiset{x.info}
  {
    assert (log + [x])[..|log|] == log;
  }

  /** A point is inserted. */
  lemma Inserted(goal: Goal, maxErr: real, pts: seq<Point>, q: Point, log: seq<Node>, visited: multiset<nat>, x: nat)
    requires Progress(goal, maxErr, pts, q, log, visited) && (goal.Within? ==> DistOf(pts, q, x) <= goal.sqRad)
    ensures Progress(goal, maxErr, pts, q, log + [Node(DistOf(pts, q, x), x)], visited + multiset{x})
  {
    hide Spared, Infos, DistOf;
    var y := Node(DistOf(pts, q, x), x);
    InfosNext(log, y);
    forall z: nat | z in visited + multiset{x}
      ensures z in Infos(log + [y]) || Spared(goal, maxErr, log + [y], DistOf(pts, q, z))
    {
      if z != x && z !in Infos(log) { SparedStays(goal, maxErr, log, y, DistOf(pts, q, z)); }
    }
  }

  /** Points that do not matter are passed over. */
  lemma PassedOver(goal: Goal, maxErr: real, pts: seq<Point>, q: Point, log: seq<Node>, visited: multiset<nat>, m: multiset<nat>)
    requires Progress(goal, maxErr, pts, q, log, visited)
    requires forall x: nat :: x in m ==> Spared(goal, maxErr, log, DistOf(pts, q, x))
    ensures Progress(goal, maxErr, pts, q, log, visited + m)
  {
    hide Spared, Infos, DistOf, Sound;
  }

  /** Nothing in a box that is far enough matters. */
  lemma FarBox(goal: Goal, maxErr: real, log: seq<Node>, boxDist: real, d: real)
    requires maxErr >= 1.0 && boxDist <= d
    requires match goal case Nearest(k) => !KthKey(k, log).Above(boxDist * maxErr) case Within(r) => boxDist * maxErr > r
    ensures Spared(goal, maxErr, log, d)
  {
    hide KthKey;
    assert maxErr * d - boxDist * maxErr == maxErr * (d - boxDist) >= 0.0;
  }

  /** Nor does a point that is itself too far. */
  lemma FarPoint(goal: Goal, maxErr: real, log: seq<Node>, d: real)
    requires maxErr >= 1.0 && d >= 0.0
    requires match goal case Nearest(k) => KthKey(k, log).Finite? && d > KthKey(k, log).v case Within(r) => d > r
    ensures Spared(goal, maxErr, log, d)
  {
    hide KthKey;
    assert maxErr * d - d == (maxErr - 1.0) * d >= 0.0;
  }

  // ---------- counting ----------

  /** The points of the items with key at most t. */
  ghost function InfosLe(log: seq<Node>, t: real): multiset<nat> {
    if log == [] then multiset{}
    else InfosLe(log[..|log| - 1], t) + if log[|log| - 1].key <= t then multiset{log[|log| - 1].info} else multiset{}
  }

  lemma {:induction false} CountInfos(log: seq<Node>, t: real)
    ensures |InfosLe(log, t)| == CountLe(log, t)
  {
    if log != [] { CountInfos(log[..|log| - 1], t); }
  }

  lemma {:induction false} InfosLeAt(pts: seq<Point>, q: Point, log: seq<Node>, t: real, x: nat)
    requires Sound(pts, q, log)
    ensures InfosLe(log, t)[x] == if DistOf(pts, q, x) <= t then Infos(log)[x] else 0
  {
    hide DistOf;
    if log != [] {
      var y := log[|log| - 1];
      assert y in log;
      InfosLeAt(pts, q, log[..|log| - 1], t, x);
    }
  }

  lemma {:induction false} EveryoneSound(pts: seq<Point>, q: Point, n: nat)
    ensures Sound(pts, q, Everyone(pts, q, n)) && forall x: nat :: Infos(Everyone(pts, q, n))[x] == if x < n then 1 else 0
  {
    hide DistOf;
    if n > 0 {
      EveryoneSound(pts, q, n - 1);
      InfosNext(Everyone(pts, q, n - 1), Node(DistOf(pts, q, n - 1), n - 1));
    }
  }

  lemma {:induction false} IdentityAt(n: nat, x: nat)
    ensures multiset(Identity(n))[x] == if x < n then 1 else 0
  {
    if n == 0 {
      assert Identity(0) == [];
    } else {
      IdentityAt(n - 1, x);
      assert Identity(n) == Identity(n - 1) + [n - 1];
    }
  }

  /** Inserting no point twice inserts no more than brute force does. */
  lemma NoMore(pts: seq<Point>, q: Point, n: nat, log: seq<Node>, t: real)
    requires Sound(pts, q, log) && Infos(log) <= multiset(Identity(n))
    ensures CountLe(log, t) <= CountLe(Everyone(pts, q, n), t)
  {
    hide DistOf, InfosLe, Infos, Everyone, Sound, CountLe;
    var all := Everyone(pts, q, n);
    EveryoneSound(pts, q, n);
    forall x: nat ensures InfosLe(log, t)[x] <= InfosLe(all, t)[x] {
      InfosLeAt(pts, q, log, t, x);
      InfosLeAt(pts, q, all, t, x);
      IdentityAt(n, x);
    }
    SmallerCount(InfosLe(log, t), InfosLe(all, t));
    CountInfos(log, t);
    CountInfos(all, t);
  }

  /** If all points up to distance t were inserted, the log has as many of them. */
  lemma NoFewer(pts: seq<Point>, q: Point, n: nat, log: seq<Node>, t: real)
    requires Sound(pts, q, log) && forall x: nat :: x < n && DistOf(pts, q, x) <= t ==> x in Infos(log)
    ensures CountLe(Everyone(pts, q, n), t) <= CountLe(log, t)
  {
    hide DistOf, InfosLe, Infos, Everyone, Sound, CountLe;
    var all := Everyone(pts, q, n);
    EveryoneSound(pts, q, n);
    forall x: nat ensures InfosLe(all, t)[x] <= InfosLe(log, t)[x] {
      InfosLeAt(pts, q, log, t, x);
      InfosLeAt(pts, q, all, t, x);
    }
    SmallerCount(InfosLe(all, t), InfosLe(log, t));
    CountInfos(log, t);
    CountInfos(all, t);
  }

  // ---------- the answer ----------

  /** The points are distinct, their keys are their distances, in order, and at each rank the distance is at
      least that of brute force and exceeds it by a factor of maxErr at most. */
  ghost predicate Ranked(pts: seq<Point>, q: Point, n: nat, maxErr: real, ans: seq<Node>) {
    && |ans| <= n && Sorted(ans) && Sound(pts, q, ans)
    && (forall i: nat :: i < |ans| ==> ans[i].info < n)
    && (forall i: nat, j: nat :: i < j < |ans| ==> ans[i].info != ans[j].info)
    && (forall i: nat :: i < |ans| ==> NearEnough(Sort(Everyone(pts, q, n)), maxErr, ans[i].key, i))
  }

  predicate NearEnough(best: seq<Node>, maxErr: real, d: real, i: nat) {
    i < |best| && best[i].key <= d <= maxErr * best[i].key
  }

  /** The first k of a stable sort of the insertions. */
  function AnswerOf(k: nat, log: seq<Node>): seq<Node> { Take(k, Sort(log)) }

  lemma {:induction false} InfosAt(log: seq<Node>, i: nat, j: nat)
    requires i < |log| && j < |log|
    ensures Infos(log)[log[i].info] >= 1
    ensures i != j && log[i].info == log[j].info ==> Infos(log)[log[i].info] >= 2
  {
    var s := log[..|log| - 1];
    if i < |s| && j < |s| {
      InfosAt(s, i, j);
    } else if i < |s| {
      InfosAt(s, i, i);
    } else if j < |s| {
      InfosAt(s, j, j);
    }
  }

  lemma {:induction false} InsertInfos(s: seq<Node>, x: Node)
    ensures Infos(Insert(s, x)) == Infos(s) + multiset{x.info}
    decreases |s|
  {
    if s == [] || s[|s| - 1].key <= x.key {
      InfosNext(s, x);
    } else {
      InsertInfos(s[..|s| - 1], x);
      InfosNext(Insert(s[..|s| - 1], x), s[|s| - 1]);
    }
  }

  lemma {:induction false} SortInfos(log: seq<Node>)
    ensures Infos(Sort(log)) == Infos(log)
  {
    if log != [] {
      SortInfos(log[..|log| - 1]);
      InsertInfos(Sort(log[..|log| - 1]), log[|log| - 1]);
    }
  }

  lemma {:induction false} SizeInfos(log: seq<Node>)
    ensures |Infos(log)| == |log|
  {
    if log != [] { SizeInfos(log[..|log| - 1]); }
  }

  /** The i-th insertion, in order of distance, against brute force. */
  lemma RankBelow(pts: seq<Point>, q: Point, n: nat, log: seq<Node>, i: nat)
    requires Sound(pts, q, log) && Infos(log) <= multiset(Identity(n)) && i < |log|
    ensures i < n && Sort(Everyone(pts, q, n))[i].key <= Sort(log)[i].key
  {
    hide DistOf, Infos, Everyone, Sound, CountLe, Sort, Sorted;
    var all, t := Everyone(pts, q, n), Sort(log)[i].key;
    SmallerCount(Infos(log), multiset(Identity(n)));
    SizeInfos(log);
    SortSorted(log);
    SortSorted(all);
    Rank(Sort(log), i, t);
    Rank(Sort(all), i, t);
    CountSort(log, t);
    CountSort(all, t);
    NoMore(pts, q, n, log, t);
  }

  /** No missing point is closer than this by more than the factor. */
  lemma RankAbove(pts: seq<Point>, q: Point, n: nat, maxErr: real, log: seq<Node>, i: nat)
    requires maxErr >= 1.0 && Sound(pts, q, log) && i < |log| && i < n
    requires forall x: nat :: x < n ==> x in Infos(log) || maxErr * DistOf(pts, q, x) >= Sort(log)[i].key
    ensures Sort(log)[i].key <= maxErr * Sort(Everyone(pts, q, n))[i].key
  {
    hide DistOf, Infos, Everyone, Sound, CountLe, Sort, Sorted;
    var all, d := Everyone(pts, q, n), Sort(log)[i].key;
    var t := Sort(all)[i].key;
    BestSign(pts, q, n, i);
    assert maxErr * t - t == (maxErr - 1.0) * t >= 0.0;
    if d > maxErr * t {
      SortSorted(log);
      SortSorted(all);
      Rank(Sort(all), i, t);
      Rank(Sort(log), i, t);
      CountSort(log, t);
      CountSort(all, t);
      forall x: nat | x < n && DistOf(pts, q, x) <= t ensures x in Infos(log) {
        assert maxErr * t - maxErr * DistOf(pts, q, x) == maxErr * (t - DistOf(pts, q, x)) >= 0.0;
      }
      NoFewer(pts, q, n, log, t);
    }
  }

  lemma BestSign(pts: seq<Point>, q: Point, n: nat, i: nat)
    requires i < n
    ensures Sort(Everyone(pts, q, n))[i].key >= 0.0
  {
    hide DistOf, Infos, Everyone, Sort, Sorted;
    var x := Sort(Everyone(pts, q, n))[i];
    SortSorted(Everyone(pts, q, n));
    EveryoneSound(pts, q, n);
    assert x in Sort(Everyone(pts, q, n));
    DistOfSign(pts, q, x.info);
  }

  /** A search that has been everywhere has a good answer. */
  lemma GoodAnswer(goal: Goal, maxErr: real, pts: seq<Point>, q: Point, n: nat, log: seq<Node>, k: nat)
    requires maxErr >= 1.0 && Progress(goal, maxErr, pts, q, log, multiset(Identity(n))) && (goal.Nearest? ==> goal.k == k)
    ensures Ranked(pts, q, n, maxErr, AnswerOf(k, log))
  {
    hide DistOf, Infos, Everyone, CountLe, Sort, Sorted;
    var s, ans := Sort(log), AnswerOf(k, log);
    SmallerCount(Infos(log), multiset(Identity(n)));
    SizeInfos(log);
    SortSorted(log);
    SortInfos(log);
    TakeSorted(k, s);
    assert forall x :: x in ans ==> x in s;
    forall i: nat | i < |ans| ensures ans[i].info < n && NearEnough(Sort(Everyone(pts, q, n)), maxErr, ans[i].key, i) {
      InfosAt(s, i, i);
      IdentityAt(n, s[i].info);
      RankBelow(pts, q, n, log, i);
      forall x: nat | x < n ensures x in Infos(log) || maxErr * DistOf(pts, q, x) >= s[i].key {
        IdentityAt(n, x);
        assert x in multiset(Identity(n));
        Missing(goal, maxErr, log, k, i, DistOf(pts, q, x));
      }
      RankAbove(pts, q, n, maxErr, log, i);
    }
    forall i: nat, j: nat | i < j < |ans| ensures ans[i].info != ans[j].info {
      InfosAt(s, i, j);
      IdentityAt(n, s[i].info);
    }
  }

  lemma TakeSorted(k: nat, s: seq<Node>)
    requires Sorted(s)
    ensures Sorted(Take(k, s))
  {
  }

  lemma Missing(goal: Goal, maxErr: real, log: seq<Node>, k: nat, i: nat, d: real)
    requires i < |log| && i < k && (goal.Nearest? ==> goal.k == k) && (goal.Within? ==> forall x :: x in log ==> x.key <= goal.sqRad)
    ensures Spared(goal, maxErr, log, d) ==> maxErr * d >= Sort(log)[i].key
  {
    hide Sort;
    SortSorted(log);
    assert Sort(log)[i] in Sort(log);
  }

  /** The answer to a nearest-neighbour query has min(k, n) points. */
  lemma FullAnswer(maxErr: real, pts: seq<Point>, q: Point, n: nat, log: seq<Node>, k: nat)
    requires Progress(Nearest(k), maxErr, pts, q, log, multiset(Identity(n)))
    ensures |AnswerOf(k, log)| == if k <= n then k else n
  {
    hide DistOf, Infos, Sort, Sorted;
    SmallerCount(Infos(log), multiset(Identity(n)));
    SizeInfos(log);
    if |log| < k {
      forall x: nat ensures multiset(Identity(n))[x] <= Infos(log)[x] {
        IdentityAt(n, x);
        assert x in multiset(Identity(n)) ==> x in Infos(log);
      }
      SmallerCount(multiset(Identity(n)), Infos(log));
    }
  }

  /** The number of insertions within a radius is at least the number of points within the radius reduced by
      the error, and at most the number within the radius. */
  lemma RangeCount(maxErr: real, pts: seq<Point>, q: Point, n: nat, log: seq<Node>, r: real)
    requires maxErr >= 1.0 && Progress(Within(r), maxErr, pts, q, log, multiset(Identity(n)))
    ensures CountLe(Everyone(pts, q, n), r / maxErr) <= |log| <= CountLe(Everyone(pts, q, n), r)
  {
    hide DistOf, Infos, Everyone, CountLe;
    forall x: nat | x < n && DistOf(pts, q, x) <= r / maxErr ensures x in Infos(log) {
      IdentityAt(n, x);
      assert x in multiset(Identity(n));
      var d := DistOf(pts, q, x);
      assert maxErr * (r / maxErr) == r;
      assert maxErr * (r / maxErr) - maxErr * d == maxErr * (r / maxErr - d) >= 0.0;
    }
    NoFewer(pts, q, n, log, r / maxErr);
    NoMore(pts, q, n, log, r);
    CountBounds(log, r / maxErr);
    CountBounds(log, r);
  }

  /** Without an error allowance the answer is that of brute force. */
  lemma ExactRanks(pts: seq<Point>, q: Point, n: nat, ans: seq<Node>)
    requires Ranked(pts, q, n, 1.0, ans)
    ensures forall i: nat :: i < |ans| ==> ans[i].key == Sort(Everyone(pts, q, n))[i].key
  {
    hide Sort, Everyone, Sorted, Sound;
    forall i: nat | i < |ans| ensures ans[i].key == Sort(Everyone(pts, q, n))[i].key {
      assert NearEnough(Sort(Everyone(pts, q, n)), 1.0, ans[i].key, i);
    }
  }
}
