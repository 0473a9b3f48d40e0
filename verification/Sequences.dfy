// Sequences of sequences, joined.
module Sequences {
  function Joined<T>(segs: seq<seq<T>>): seq<T> {
    if segs == [] then [] else Joined(segs[..|segs| - 1]) + segs[|segs| - 1]
  }

  lemma Associate<T>(a: seq<T>, b: seq<T>, c: seq<T>)
    ensures a + b + c == a + (b + c)
  {
  }

  lemma {:induction false} JoinedFirst<T>(segs: seq<seq<T>>)
    requires segs != []
    ensures Joined(segs) == segs[0] + Joined(segs[1..])
    decreases |segs|
  {
    var n := |segs| - 1;
    if n == 0 {
      assert Joined(segs[..0]) == [] && Joined(segs[1..]) == [];
    } else {
      var t := segs[1..];
      JoinedFirst(segs[..n]);
      assert segs[..n][1..] == t[..n - 1] && t[n - 1] == segs[n];
      Associate(segs[0], Joined(t[..n - 1]), segs[n]);
    }
  }

  /** Before, in and after segment i. */
  lemma {:induction false} JoinedSplit<T>(segs: seq<seq<T>>, i: nat) returns (rest: seq<T>)
    requires i < |segs|
    ensures Joined(segs[..i + 1]) == Joined(segs[..i]) + segs[i] && Joined(segs) == Joined(segs[..i]) + segs[i] + rest
    decreases |segs|
  {
    var n := |segs| - 1;
    assert segs[..i + 1][..i] == segs[..i];
    if i == n {
      assert segs[..i + 1] == segs;
      rest := [];
      assert Joined(segs) == Joined(segs) + rest;
    } else {
      rest := JoinedSplit(segs[..n], i);
      assert segs[..n][..i] == segs[..i];
      Associate(Joined(segs[..i]) + segs[i], rest, segs[n]);
      rest := rest + segs[n];
    }
  }

  /** How many elements come before element j of segment i. */
  function Position<T>(segs: seq<seq<T>>, i: nat, j: nat): nat
    requires i <= |segs|
  {
    |Joined(segs[..i])| + j
  }

  lemma PositionNone<T>(segs: seq<seq<T>>)
    ensures Position(segs, 0, 0) == 0
  {
  }

  lemma PositionStep<T>(segs: seq<seq<T>>, i: nat, j: nat)
    requires i <= |segs| && j > 0
    ensures Position(segs, i, j) == Position(segs, i, j - 1) + 1
  {
  }

  lemma PositionNext<T>(segs: seq<seq<T>>, i: nat)
    requires i < |segs|
    ensures Position(segs, i + 1, 0) == Position(segs, i, |segs[i]|)
  {
    assert segs[..i + 1][..i] == segs[..i];
  }

  lemma PositionAt<T>(segs: seq<seq<T>>, i: nat, j: nat)
    requires i < |segs| && j <= |segs[i]|
    ensures Position(segs, i, j) <= |Joined(segs)|
    ensures j < |segs[i]| ==> Position(segs, i, j) < |Joined(segs)| && Joined(segs)[Position(segs, i, j)] == segs[i][j]
    ensures i == |segs| - 1 ==> Position(segs, i, |segs[i]|) == |Joined(segs)|
  {
    hide Joined;
    var rest := JoinedSplit(segs, i);
    if i == |segs| - 1 { assert segs[..i + 1] == segs; }
  }

  lemma {:induction false} SamePositions<A, B>(a: seq<seq<A>>, b: seq<seq<B>>, i: nat)
    requires i <= |a| == |b| && forall k :: 0 <= k < |a| ==> |a[k]| == |b[k]|
    ensures |Joined(a[..i])| == |Joined(b[..i])|
  {
    if i > 0 {
      SamePositions(a, b, i - 1);
      assert a[..i][..i - 1] == a[..i - 1] && b[..i][..i - 1] == b[..i - 1];
    }
  }

  lemma {:induction false} PositionMono<T>(segs: seq<seq<T>>, i: nat, k: nat)
    requires i <= k <= |segs|
    ensures Position(segs, i, 0) <= Position(segs, k, 0)
    decreases k
  {
    if i < k {
      PositionMono(segs, i, k - 1);
      PositionNext(segs, k - 1);
    }
  }

  /** Different places, different positions. */
  lemma PositionsApart<T>(segs: seq<seq<T>>, i: nat, j: nat, k: nat, l: nat)
    requires i < |segs| && j < |segs[i]| && k < |segs| && l < |segs[k]| && (i != k || j != l)
    ensures Position(segs, i, j) != Position(segs, k, l)
  {
    PositionNext(segs, i);
    PositionNext(segs, k);
    if i < k { PositionMono(segs, i + 1, k); }
    if k < i { PositionMono(segs, k + 1, i); }
  }

  lemma {:induction false} JoinedAppend<T>(a: seq<seq<T>>, b: seq<seq<T>>)
    ensures Joined(a + b) == Joined(a) + Joined(b)
    decreases |b|
  {
    if b == [] {
      assert a + b == a;
    } else {
      var n := |b| - 1;
      var all := a + b;
      assert all[..|all| - 1] == a + b[..n] && all[|all| - 1] == b[n];
      JoinedAppend(a, b[..n]);
      Associate(Joined(a), Joined(b[..n]), b[n]);
    }
  }

  /** Every element is in one of the segments. */
  lemma {:induction false} JoinedFind<T>(segs: seq<seq<T>>, x: T) returns (i: nat, j: nat)
    requires x in Joined(segs)
    ensures i < |segs| && j < |segs[i]| && segs[i][j] == x
    decreases |segs|
  {
    var n := |segs| - 1;
    if x in segs[n] {
      i := n;
      j :| j < |segs[n]| && segs[n][j] == x;
    } else {
      i, j := JoinedFind(segs[..n], x);
    }
  }
}
