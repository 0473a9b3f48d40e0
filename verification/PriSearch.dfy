// Priority search (kd_pr_search.cpp, bd_pr_search.cpp): subtrees wait in a heap, the closest comes next.
module PriSearch {
  import opened Geometry
  import opened PointSplit
  import opened KdTree
  import opened MinK
  import opened PrQueue
  import opened Neighbours
  import opened SearchSteps
  import opened AnnTree
  import opened Answers
  import opened KdSearch

  /** A waiting subtree, with its cell and the place of its points. */
  datatype Sub = Sub(t: Tree, ghost box: Rect, ghost off: nat)

  /** The points of the waiting subtrees. */
  ghost function Pending(s: seq<nat>, qs: seq<Entry<Sub>>): multiset<nat> {
    if qs == [] then multiset{} else Pending(s, qs[1..]) + BucketOf(s, qs[0].info)
  }

  ghost function BucketOf(s: seq<nat>, e: Sub): multiset<nat> {
    if e.off + Size(e.t) <= |s| then Bucket(s, e.off, Size(e.t)) else multiset{}
  }

  /** How many nodes are waiting to be looked at. */
  function Nodes(t: Tree): nat {
    match t
    case Leaf(_, _) => 1
    case Split(_, _, _, _, lo, hi) => 1 + Nodes(lo) + Nodes(hi)
    case Shrink(_, inner, outer) => 1 + Nodes(inner) + Nodes(outer)
  }

  ghost function Waiting(qs: seq<Entry<Sub>>): nat {
    if qs == [] then 0 else Waiting(qs[1..]) + Nodes(qs[0].info.t)
  }

  lemma {:induction false} TakeOut(s: seq<nat>, qs: seq<Entry<Sub>>, i: nat)
    requires i < |qs|
    ensures Pending(s, qs) == Pending(s, qs[..i] + qs[i + 1..]) + BucketOf(s, qs[i].info)
    ensures Waiting(qs) == Waiting(qs[..i] + qs[i + 1..]) + Nodes(qs[i].info.t)
    ensures multiset(qs) == multiset(qs[..i] + qs[i + 1..]) + multiset{qs[i]}
  {
    hide Nodes, BucketOf;
    var r := qs[..i] + qs[i + 1..];
    if i == 0 {
      assert r == qs[1..];
    } else {
      var t := qs[1..];
      TakeOut(s, t, i - 1);
      assert r[1..] == t[..i - 1] + t[i..];
    }
    assert qs == qs[..i] + [qs[i]] + qs[i + 1..];
  }

  lemma PutIn(s: seq<nat>, qs: seq<Entry<Sub>>, e: Entry<Sub>)
    ensures Pending(s, [e] + qs) == Pending(s, qs) + BucketOf(s, e.info)
    ensures Waiting([e] + qs) == Waiting(qs) + Nodes(e.info.t)
    ensures multiset([e] + qs) == multiset(qs) + multiset{e}
  {
    assert ([e] + qs)[1..] == qs;
  }

  /** Each waiting subtree has a point. */
  lemma {:induction false} PendingSize(s: seq<nat>, qs: seq<Entry<Sub>>)
    requires forall e :: e in qs ==> Size(e.info.t) >= 1 && e.info.off + Size(e.info.t) <= |s|
    ensures |Pending(s, qs)| >= |qs|
  {
    if qs != [] {
      assert qs[0] in qs;
      PendingSize(s, qs[1..]);
    }
  }

  class PriSearcher {
    const base: Searcher
    const boxPQ: ANNpr_queue<Sub>
    /** The queue's entries in some order, and the key of the last one that left it. */
    ghost var qs: seq<Entry<Sub>>
    ghost var last: real

    /** A subtree with points, its cell and the distance of its cell. */
    ghost predicate Fits(e: Entry<Sub>)
      reads base.pidx
    {
      base.Cell(e.info.t, e.key, e.info.box, e.info.off) && Size(e.info.t) >= 1
    }

    /** The queue holds qs, and no keys of a kd-tree's queue are less than the last one that left. */
    ghost predicate Queued()
      reads this, base.pidx, boxPQ, boxPQ.pq
    {
      && boxPQ.Valid() && boxPQ.maxSize == base.pidx.Length && boxPQ.Contents() == multiset(qs)
      && forall e :: e in qs ==> Fits(e) && (base.plain ==> e.key >= last)
    }

    /** What is visited, waiting and in hand is every point once. */
    ghost predicate Shared(cur: multiset<nat>)
      reads this, base, base.pidx
    {
      base.visited + Pending(base.pidx[..], qs) + cur == multiset(base.pidx[..])
    }

    ghost predicate Ready(cur: multiset<nat>)
      reads this, base, base.mk, base.mk.mk, base.pidx, boxPQ, boxPQ.pq
    {
      base.Ready() && base.goal.Nearest? && Queued() && Shared(cur)
    }

    /** There is room in the queue for another subtree with points. */
    lemma Room(cur: multiset<nat>)
      requires Queued() && Shared(cur) && |cur| >= 1
      ensures boxPQ.n < boxPQ.maxSize
    {
      hide Searcher.Cell, Size, Bucket;
      var s := base.pidx[..];
      assert forall e :: e in qs ==> Fits(e);
      forall e | e in qs ensures e.info.off + Size(e.info.t) <= |s| { base.CellSize(e.info.t, e.key, e.info.box, e.info.off); }
      PendingSize(s, qs);
      EntriesCount(boxPQ.pq[..boxPQ.n + 1]);
      assert |multiset(qs)| == |qs|;
      assert |base.visited + Pending(s, qs) + cur| == |multiset(s)|;
    }

    /** A subtree joins the queue. */
    method Enqueue(key: real, ghost e: Sub, t: Tree, ghost cur: multiset<nat>)
      requires Queued() && Fits(Entry(key, e)) && t == e.t && (base.plain ==> key >= last)
      requires Shared(cur + BucketOf(base.pidx[..], e))
      modifies this`qs, boxPQ, boxPQ.pq
      ensures Queued() && Shared(cur) && Waiting(qs) == old(Waiting(qs)) + Nodes(t)
    {
      hide Searcher.Cell, Size, Bucket, BucketOf, Nodes, Pending, Waiting, ANNpr_queue.Valid, ANNpr_queue.Contents;
      base.CellSize(t, key, e.box, e.off);
      BucketSize(base.pidx[..], e);
      Room(cur + BucketOf(base.pidx[..], e));
      PutIn(base.pidx[..], qs, Entry(key, e));
      boxPQ.Insert(key, Sub(t, e.box, e.off));
      qs := [Entry(key, e)] + qs;
    }
  
    constructor (dim: nat, q: Point, maxErr: real, pts: seq<Point>, pidx: array<nat>, k: nat, ghost plain: bool)
      requires |q| == dim >= 1 && maxErr >= 1.0 && Fit(pts, pidx[..], dim) && k >= 1
      ensures Ready(multiset(pidx[..])) && fresh(base) && fresh(base.mk) && fresh(base.mk.mk) && fresh(boxPQ) && fresh(boxPQ.pq)
      ensures base.goal == Nearest(k) && base.mk.k == k && base.dim == dim && base.q == q && base.maxErr == maxErr
      ensures base.pts == pts && base.pidx == pidx && base.plain == plain && qs == []
    {
      base := new Searcher(Nearest(k), dim, q, maxErr, pts, pidx, k, plain);
      boxPQ := new ANNpr_queue(pidx.Length, Entry(0.0, Sub(TRIVIAL, Rect([], []), 0)));
      qs, last := [], 0.0;
    }

    /** The closest subtree leaves the queue.  In a kd-tree it is no closer than the last one that left. */
    method Dequeue() returns (key: real, e: Sub)
      requires Ready(multiset{}) && boxPQ.n > 0
      modifies this, boxPQ, boxPQ.pq
      ensures Ready(BucketOf(base.pidx[..], e)) && Fits(Entry(key, e)) && old(Waiting(qs)) == Waiting(qs) + Nodes(e.t)
      ensures forall f :: f in qs ==> key <= f.key
      ensures last == key && (base.plain ==> key >= old(last))
    {
      hide Fits, Searcher.Ready, Size, Bucket, BucketOf, Nodes, Pending, Waiting, ANNpr_queue.Valid, ANNpr_queue.Contents;
      ghost var was := qs;
      key, e := boxPQ.ExtrMin();
      qs := Without(base.pidx[..], was, Entry(key, e), boxPQ.Contents());
      last := key;
    }

    /** When the closest waiting subtree is too far, so are the points of all of them. */
    lemma {:induction false} AllFar(key: real, fs: seq<Entry<Sub>>)
      requires base.Ready() && !base.Close(key) && forall f :: f in fs ==> Fits(f) && key <= f.key
      ensures forall x: nat :: x in Pending(base.pidx[..], fs) ==> Spared(base.goal, base.maxErr, base.mk.log, DistOf(base.pts, base.q, x))
    {
      hide Built, Spared, DistOf, Bucket, Searcher.Close, ANNmin_k.Valid, Progress, BoxDist, Sq, Fit;
      if fs != [] {
        var f, s := fs[0], base.pidx[..];
        assert f in fs && forall g :: g in fs[1..] ==> g in fs;
        AllFar(key, fs[1..]);
        SubtreeFar(f.info.t, base.pts, s, base.dim, f.info.box, f.info.off, base.q);
        forall x: nat | x in BucketOf(s, f.info) ensures Spared(base.goal, base.maxErr, base.mk.log, DistOf(base.pts, base.q, x)) {
          base.NotClose(key, DistOf(base.pts, base.q, x));
        }
      }
    }

    /** The search ends: nothing that is left matters. */
    ghost method GiveUp(key: real, e: Sub)
      requires Ready(BucketOf(base.pidx[..], e)) && Fits(Entry(key, e)) && !base.Close(key) && forall f :: f in qs ==> key <= f.key
      modifies base`visited
      ensures base.Ready() && base.visited == multiset(base.pidx[..])
    {
      hide Fits, Progress, Spared, DistOf, BucketOf, Searcher.Close, ANNmin_k.Valid, ANNpr_queue.Valid, ANNpr_queue.Contents, Pending, Fit;
      var s := base.pidx[..];
      AllFar(key, qs);
      var one := [Entry(key, e)];
      AllFar(key, one);
      PutIn(s, [], Entry(key, e));
      assert one == one + [];
      NonePending(s);
      var rest := Pending(s, qs) + BucketOf(s, e);
      PassedOver(base.goal, base.maxErr, base.pts, base.q, base.mk.log, base.visited, rest);
      base.visited := base.visited + rest;
    }

    /** The queue has run empty. */
    lemma Finished()
      requires Ready(multiset{}) && boxPQ.n == 0
      ensures base.visited == multiset(base.pidx[..])
    {
      hide Searcher.Ready, Fits;
      assert |qs| == |multiset(qs)|;
      EntriesCount(boxPQ.pq[..boxPQ.n + 1]);
      NonePending(base.pidx[..]);
    }

    /** No key has left an empty queue. */
    ghost method FirstKey(key: real)
      requires qs == [] && Queued()
      modifies this`last
      ensures Queued() && last == key
    {
      hide ANNpr_queue.Valid, ANNpr_queue.Contents;
      last := key;
    }

    /** ann_pri_search, by the kind of node. */
    method Search(t: Tree, boxDist: real, ghost box: Rect, ghost off: nat)
      requires base.Cell(t, boxDist, box, off) && off + Size(t) <= base.pidx.Length && (base.plain ==> boxDist >= last)
      requires Ready(Bucket(base.pidx[..], off, Size(t)))
      modifies this`qs, boxPQ, boxPQ.pq, base, base.mk, base.mk.mk
      ensures Ready(multiset{}) && Waiting(qs) < old(Waiting(qs)) + Nodes(t)
      decreases t, 1
    {
      hide Pending, Waiting, Searcher.Ready, Searcher.Cell, ANNpr_queue.Valid, ANNpr_queue.Contents, Size, Bucket, Sq;
      match t {
        case Leaf(_, _) =>
          CellBuilt(t, boxDist, box, off);
          base.SearchLeaf(t, box, off);
          assert base.visited + Pending(base.pidx[..], qs) + multiset{} == multiset(base.pidx[..]);
        case Split(_, _, _, _, _, _) =>
          SearchSplit(t, boxDist, box, off);
        case Shrink(_, _, _) =>
          SearchShrink(t, boxDist, box, off);
      }
    }

    lemma CellBuilt(t: Tree, boxDist: real, box: Rect, off: nat)
      requires base.Cell(t, boxDist, box, off)
      ensures Built(t, base.pts, base.pidx[..], base.dim, box, off) && off + Size(t) <= base.pidx.Length
      ensures Size(t) == 0 <==> t == TRIVIAL
    {
    }

    /** The child that waits: not if it is the trivial leaf. */
    method Wait(t: Tree, key: real, ghost box: Rect, ghost off: nat, ghost cur: multiset<nat>)
      requires base.Cell(t, key, box, off) && off + Size(t) <= base.pidx.Length && (base.plain ==> key >= last)
      requires Ready(cur + Bucket(base.pidx[..], off, Size(t)))
      modifies this`qs, boxPQ, boxPQ.pq
      ensures Ready(cur) && Waiting(qs) <= old(Waiting(qs)) + Nodes(t)
    {
      hide Pending, Waiting, Searcher.Ready, Searcher.Cell, ANNpr_queue.Valid, ANNpr_queue.Contents, Size, Nodes;
      CellBuilt(t, key, box, off);
      if t != TRIVIAL {
        Enqueue(key, Sub(t, box, off), t, cur);
      } else {
        assert base.pidx[off..off] == [];
        assert cur + Bucket(base.pidx[..], off, Size(t)) == cur;
      }
    }

    /** ANNkd_split::ann_pri_search: the further child waits, the closer one is next. */
    method SearchSplit(t: Tree, boxDist: real, ghost box: Rect, ghost off: nat)
      requires t.Split? && base.Cell(t, boxDist, box, off) && off + Size(t) <= base.pidx.Length && (base.plain ==> boxDist >= last)
      requires Ready(Bucket(base.pidx[..], off, Size(t)))
      modifies this`qs, boxPQ, boxPQ.pq, base, base.mk, base.mk.mk
      ensures Ready(multiset{}) && Waiting(qs) < old(Waiting(qs)) + Nodes(t)
      decreases t, 0
    {
      hide Pending, Waiting, Searcher.Ready, Searcher.Cell, ANNpr_queue.Valid, ANNpr_queue.Contents, Bucket, Queued, Sq;
      ghost var s := base.pidx[..];
      ghost var loBox, hiBox := base.SplitCells(t, boxDist, box, off);
      BucketParts(s, off, Size(t.lo), Size(t.hi));
      ghost var lower, upper := Bucket(s, off, Size(t.lo)), Bucket(s, off + Size(t.lo), Size(t.hi));
      var newDist := FarDist(base.q, t.cd, t.cv, t.lb, t.hb, boxDist);
      if base.q[t.cd] < t.cv {
        Wait(t.hi, newDist, hiBox, off + Size(t.lo), lower);
        Search(t.lo, boxDist, loBox, off);
      } else {
        assert Bucket(s, off, Size(t)) == upper + lower;
        Wait(t.lo, newDist, loBox, off, upper);
        Search(t.hi, boxDist, hiBox, off + Size(t.lo));
      }
    }

    /** ANNbd_shrink::ann_pri_search */
    method SearchShrink(t: Tree, boxDist: real, ghost box: Rect, ghost off: nat)
      requires t.Shrink? && base.Cell(t, boxDist, box, off) && off + Size(t) <= base.pidx.Length
      requires Ready(Bucket(base.pidx[..], off, Size(t)))
      modifies this`qs, boxPQ, boxPQ.pq, base, base.mk, base.mk.mk
      ensures Ready(multiset{}) && Waiting(qs) < old(Waiting(qs)) + Nodes(t)
      decreases t, 0
    {
      hide Pending, Waiting, Searcher.Ready, ANNpr_queue.Valid, ANNpr_queue.Contents, Bucket, Queued, Sq, Built, BoxDist, Cut, OutDist;
      ghost var s := base.pidx[..];
      base.ShrinkCells(t, boxDist, box, off);
      BucketParts(s, off, Size(t.inner), Size(t.outer));
      ghost var inside, outside := Bucket(s, off, Size(t.inner)), Bucket(s, off + Size(t.inner), Size(t.outer));
      var innerDist := InnerDist(t.bnds, base.q);
      if innerDist <= boxDist {
        Wait(t.outer, boxDist, box, off + Size(t.inner), inside);
        Search(t.inner, innerDist, Cut(box, t.bnds), off);
      } else {
        assert Bucket(s, off, Size(t)) == outside + inside;
        Wait(t.inner, innerDist, Cut(box, t.bnds), off, outside);
        Search(t.outer, boxDist, box, off + Size(t.inner));
      }
    }
  }

  lemma NonePending(s: seq<nat>)
    ensures Pending(s, []) == multiset{}
  {
  }

  /** The queue without an entry x of it. */
  lemma Without(s: seq<nat>, qs: seq<Entry<Sub>>, x: Entry<Sub>, left: multiset<Entry<Sub>>) returns (r: seq<Entry<Sub>>)
    requires multiset(qs) == left + multiset{x}
    ensures multiset(r) == left && forall f :: f in r ==> f in qs && f in multiset(qs)
    ensures Pending(s, qs) == Pending(s, r) + BucketOf(s, x.info) && Waiting(qs) == Waiting(r) + Nodes(x.info.t)
    ensures x in qs
  {
    hide Pending, BucketOf, Waiting, Nodes;
    assert x in multiset(qs);
    var i :| 0 <= i < |qs| && qs[i] == x;
    TakeOut(s, qs, i);
    r := qs[..i] + qs[i + 1..];
    Cancel(left, multiset(r), x);
  }

  lemma Cancel(a: multiset<Entry<Sub>>, b: multiset<Entry<Sub>>, x: Entry<Sub>)
    requires a + multiset{x} == b + multiset{x}
    ensures a == b
  {
    assert a == (a + multiset{x}) - multiset{x};
    assert b == (b + multiset{x}) - multiset{x};
  }

  lemma BucketSize(s: seq<nat>, e: Sub)
    requires e.off + Size(e.t) <= |s|
    ensures |BucketOf(s, e)| == Size(e.t)
  {
  }


  /** The distance is that of the cell, as in the other searches. */
  lemma InHand(s: PriSearcher, key: real, e: Sub)
    requires s.Ready(BucketOf(s.base.pidx[..], e)) && s.Fits(Entry(key, e))
    ensures s.base.Cell(e.t, key, e.box, e.off) && e.off + Size(e.t) <= s.base.pidx.Length
    ensures BucketOf(s.base.pidx[..], e) == Bucket(s.base.pidx[..], e.off, Size(e.t))
  {
    hide Searcher.Cell;
    s.base.CellSize(e.t, key, e.box, e.off);
  }

  /** The main loop of annkPriSearch, from the root in the queue. */
  method Drain(s: PriSearcher)
    requires s.Ready(multiset{})
    modifies s, s.boxPQ, s.boxPQ.pq, s.base, s.base.mk, s.base.mk.mk
    ensures s.base.Ready() && s.base.visited == multiset(s.base.pidx[..])
  {
    hide Bucket, BucketOf, Waiting, Nodes, Searcher.Cell, Progress, Fit, ANNmin_k.Valid, ANNpr_queue.Valid, ANNpr_queue.Contents,
      PriSearcher.Queued, PriSearcher.Fits, PriSearcher.Shared, Searcher.Close, Size;
    while s.boxPQ.NonEmpty()
      invariant s.Ready(multiset{})
      decreases Waiting(s.qs)
    {
      var boxDist, np := s.Dequeue();
      InHand(s, boxDist, np);
      if !s.base.Close(boxDist) {
        s.GiveUp(boxDist, np);
        return;
      }
      s.Search(np.t, boxDist, np.box, np.off);
    }
    s.Finished();
  }

  /** A search from the root until nothing that is left can matter. */
  method SearchAll(t: ANNtree, q: Point, k: nat, maxErr: real) returns (s: PriSearcher)
    requires t.Valid() && t.nPts > 0 && |q| == t.dim && k >= 1 && maxErr >= 1.0
    ensures s.base.Ready() && s.base.visited == multiset(t.pidx[..])
    ensures s.base.goal == Nearest(k) && s.base.mk.k == k && s.base.q == q && s.base.maxErr == maxErr && s.base.pts == t.pts
  {
    hide Progress, Built, Bucket, Pending, Sq, Fit, Searcher.Cell, ANNmin_k.Valid, ANNpr_queue.Valid, ANNpr_queue.Contents, PriSearcher.Queued, Metric;
    s := new PriSearcher(t.dim, q, maxErr, t.pts, t.pidx, k, Plain(t.root.value));
    BuiltSize(t.root.value, t.pts, t.pidx[..], t.dim, t.bndBox, 0);
    var boxDist := AnnBoxDistance(q, t.bndBox);
    RootCell(s.base, t, boxDist);
    WholeBucket(t.pidx[..], t.nPts);
    s.FirstKey(boxDist);
    s.Enqueue(boxDist, Sub(t.root.value, t.bndBox, 0), t.root.value, multiset{});
    Drain(s);
  }

  /** annkPriSearch: the guarantee of annkSearch.  Asked for more neighbours than there are points, it reports
      them all and fills up with infinite distances. */
  method AnnkPriSearch(t: ANNtree, q: Point, k: nat, eps: real) returns (dd: seq<Key>, nnIdx: seq<int>, ghost ans: seq<Node>)
    requires t.Valid() && t.nPts > 0 && |q| == t.dim && k >= 1 && eps >= 0.0
    ensures KNearest(t.pts, q, t.nPts, k, (1.0 + eps) * (1.0 + eps), dd, nnIdx)
    ensures Ranked(t.pts, q, t.nPts, MaxErr(eps), ans) && |ans| == (if k <= t.nPts then k else t.nPts) && Reports(ans, k, dd, nnIdx)
    ensures eps == 0.0 ==> Distances(AnswerOf(k, Everyone(t.pts, q, t.nPts)), k, dd)
  {
    hide Progress, Ranked, AnswerOf, Everyone, Built, Fit, Distances, ANNmin_k.Valid, KNearest;
    var s := SearchAll(t, q, k, MaxErr(eps));
    ans := AnswerOf(k, s.base.mk.log);
    dd, nnIdx := Extract(s.base.mk);
    NearestReply(t, q, k, eps, s.base.mk.log, dd, nnIdx);
  }
}
