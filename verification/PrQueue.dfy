// ANNpr_queue (pr_queue.h): a binary heap on [1..n] with the smallest key at the root.
module PrQueue {
  datatype Entry<T> = Entry(key: real, info: T)

  /** Every entry but that at r is at least its parent; what lies under r is at least what lies over it. */
  ghost predicate HeapBut<T>(s: seq<Entry<T>>, r: nat) {
    && (forall i {:trigger s[i]} :: 2 <= i < |s| && i != r ==> s[i / 2].key <= s[i].key)
    && (forall i {:trigger s[i]} :: 2 <= i < |s| && i / 2 == r && r >= 2 ==> s[r / 2].key <= s[i].key)
  }

  /** Every entry is at least its parent, unless its parent is at p; what lies under p is at least what
      lies over it. */
  ghost predicate HeapUnder<T>(s: seq<Entry<T>>, p: nat) {
    && (forall i {:trigger s[i]} :: 2 <= i < |s| && i / 2 != p ==> s[i / 2].key <= s[i].key)
    && (forall i {:trigger s[i]} :: 2 <= i < |s| && i / 2 == p && p >= 2 ==> s[p / 2].key <= s[i].key)
  }

  ghost predicate Heap<T>(s: seq<Entry<T>>) {
    forall i {:trigger s[i]} :: 2 <= i < |s| ==> s[i / 2].key <= s[i].key
  }

  /** The entries, which start at 1. */
  ghost function Entries<T>(s: seq<Entry<T>>): multiset<Entry<T>>
    requires s != []
  {
    multiset(s[1..])
  }

  function Swap<T>(s: seq<Entry<T>>, i: nat, j: nat): seq<Entry<T>>
    requires i < |s| && j < |s|
  {
    s[i := s[j]][j := s[i]]
  }

  lemma SwapEntries<T>(s: seq<Entry<T>>, i: nat, j: nat)
    requires 1 <= i < |s| && 1 <= j < |s|
    ensures Entries(Swap(s, i, j)) == Entries(s)
  {
    var t := s[1..];
    assert Swap(s, i, j)[1..] == t[i - 1 := t[j - 1]][j - 1 := t[i - 1]];
  }

  lemma SwapAt<T>(s: seq<Entry<T>>, i: nat, j: nat)
    requires i < |s| && j < |s|
    ensures var t := Swap(s, i, j); |t| == |s| && t[j] == s[i] && forall k: nat :: k < |s| && k != j ==> t[k] == s[if k == i then j else k]
  {
  }

  /** One step up. */
  lemma SiftUp<T>(s: seq<Entry<T>>, r: nat)
    requires HeapBut(s, r) && 2 <= r < |s| && s[r / 2].key > s[r].key
    ensures HeapBut(Swap(s, r, r / 2), r / 2) && Entries(Swap(s, r, r / 2)) == Entries(s)
  {
    SwapEntries(s, r, r / 2);
  }

  /** One step down, to the smaller child. */
  lemma SiftDown<T>(s: seq<Entry<T>>, p: nat, r: nat)
    requires HeapUnder(s, p) && 1 <= p && 2 <= r < |s| && r / 2 == p && s[p].key > s[r].key
    requires forall i :: 2 <= i < |s| && i / 2 == p ==> s[r].key <= s[i].key
    ensures HeapUnder(Swap(s, p, r), r) && Entries(Swap(s, p, r)) == Entries(s)
  {
    SwapEntries(s, p, r);
  }

  /** The root is the smallest. */
  lemma {:induction false} RootLeast<T>(s: seq<Entry<T>>, i: nat)
    requires Heap(s) && 1 <= i < |s|
    ensures s[1].key <= s[i].key
  {
    if i > 1 { RootLeast(s, i / 2); }
  }

  lemma LeastEntry<T>(s: seq<Entry<T>>, e: Entry<T>)
    requires Heap(s) && |s| > 1 && e in Entries(s)
    ensures s[1].key <= e.key
  {
    var i :| 0 <= i < |s[1..]| && s[1..][i] == e;
    RootLeast(s, i + 1);
  }

  class ANNpr_queue<T> {
    const maxSize: nat
    const pq: array<Entry<T>>
    var n: nat

    /** The entries in the queue. */
    ghost function Contents(): multiset<Entry<T>>
      reads this, pq
      requires n < pq.Length
    {
      Entries(pq[..n + 1])
    }

    ghost predicate Valid()
      reads this, pq
    {
      pq.Length == maxSize + 1 && n <= maxSize && Heap(pq[..n + 1])
    }

    constructor (max: nat, filler: Entry<T>)
      ensures Valid() && maxSize == max && n == 0 && Contents() == multiset{} && fresh(pq)
    {
      maxSize := max;
      n := 0;
      pq := new Entry<T>[max + 1](_ => filler);
    }

    predicate NonEmpty()
      reads this
    {
      n != 0
    }

    /** The array is s, but for what it holds at r. */
    ghost predicate Shows(s: seq<Entry<T>>, r: nat)
      reads this, pq
    {
      n < pq.Length && |s| == n + 1 && 1 <= r <= n && forall i :: 1 <= i <= n && i != r ==> pq[i] == s[i]
    }

    /** Where the new entry goes, with the entries on its way moved down. */
    method MoveDown(kv: real, ghost s0: seq<Entry<T>>) returns (r: nat, ghost s: seq<Entry<T>>)
      requires Shows(s0, n) && s0[n].key == kv && HeapBut(s0, n)
      modifies pq
      ensures Shows(s, r) && s[r] == s0[n] && Heap(s) && Entries(s) == Entries(s0)
    {
      hide Entries, HeapBut, Heap;
      r := n;
      s := s0;
      while r > 1
        invariant Shows(s, r) && s[r] == s0[n] && HeapBut(s, r) && Entries(s) == Entries(s0)
      {
        var p := r / 2;
        if pq[p].key <= kv { break; }
        SiftUp(s, r);
        s := Swap(s, r, p);
        pq[r] := pq[p];
        r := p;
      }
      UpDone(s, r);
    }

    /** Sift up.  The source aborts when the queue is full. */
    method Insert(kv: real, inf: T)
      requires Valid() && n < maxSize
      modifies this, pq
      ensures Valid() && n == old(n) + 1 && Contents() == old(Contents()) + multiset{Entry(kv, inf)}
    {
      hide Entries, HeapBut, Heap;
      ghost var s, x := pq[..n + 1], Entry(kv, inf);
      n := n + 1;
      AddLast(s, x);
      ghost var s';
      var r;
      r, s' := MoveDown(kv, s + [x]);
      pq[r] := Entry(kv, inf);
      SameHeap(pq[..n + 1], s');
    }

    /** Where the last entry goes, with the entries on its way moved up. */
    method MoveUp(kn: real, ghost s0: seq<Entry<T>>) returns (p: nat, ghost s: seq<Entry<T>>)
      requires Shows(s0, 1) && s0[1].key == kn && HeapUnder(s0, 1)
      modifies pq
      ensures Shows(s, p) && s[p] == s0[1] && Heap(s) && Entries(s) == Entries(s0)
      ensures n + 1 < pq.Length ==> pq[n + 1] == old(pq[n + 1])
    {
      hide Entries, HeapUnder, Heap, Swap;
      p := 1;
      s := s0;
      var r := 2 * p;
      while r <= n
        invariant Shows(s, p) && s[p] == s0[1] && HeapUnder(s, p) && Entries(s) == Entries(s0) && r == 2 * p
        invariant n + 1 < pq.Length ==> pq[n + 1] == old(pq[n + 1])
        decreases n - p
      {
        if r < n && pq[r].key > pq[r + 1].key { r := r + 1; }
        Smaller(s, p, r);
        if kn <= pq[r].key { break; }
        SiftDown(s, p, r);
        SwapAt(s, p, r);
        s := Swap(s, p, r);
        pq[p] := pq[r];
        p := r;
        r := 2 * p;
      }
      DownDone(s, p);
    }

    /** Take out an entry with the smallest key. */
    method ExtrMin() returns (kv: real, inf: T)
      requires Valid() && n > 0
      modifies this, pq
      ensures Valid() && n == old(n) - 1 && n < pq.Length && old(Contents()) == Contents() + multiset{Entry(kv, inf)}
      ensures forall e :: e in old(Contents()) ==> kv <= e.key
    {
      hide Entries, HeapUnder, Heap;
      ghost var s := pq[..n + 1];
      kv := pq[1].key;
      inf := pq[1].info;
      forall e | e in Contents() ensures kv <= e.key { LeastEntry(s, e); }
      var kn := pq[n].key;
      n := n - 1;
      DropLast(s);
      var p := 1;
      if n > 0 {
        ghost var s';
        p, s' := MoveUp(kn, s[..n + 1][1 := s[n + 1]]);
        pq[p] := pq[n + 1];
        SameHeap(pq[..n + 1], s');
      } else {
        pq[p] := pq[n + 1];
        SameHeap(pq[..n + 1], s[..1]);
      }
    }
  }

  /** A new entry in the last place. */
  lemma AddLast<T>(s: seq<Entry<T>>, x: Entry<T>)
    requires s != [] && Heap(s)
    ensures HeapBut(s + [x], |s|) && Entries(s + [x]) == Entries(s) + multiset{x}
  {
    assert (s + [x])[1..] == s[1..] + [x];
  }

  /** The last entry in place of the root. */
  lemma DropLast<T>(s: seq<Entry<T>>)
    requires |s| > 1 && Heap(s)
    ensures |s| == 2 ==> Heap(s[..1]) && Entries(s) == Entries(s[..1]) + multiset{s[1]}
    ensures |s| > 2 ==> var t := s[..|s| - 1][1 := s[|s| - 1]]; HeapUnder(t, 1) && Entries(s) == Entries(t) + multiset{s[1]}
  {
    var n := |s| - 2;
    if n == 0 {
      assert s[1..] == [s[1]] && s[..1][1..] == [];
    } else {
      var t := s[..n + 1][1 := s[n + 1]];
      assert s[1..] == [s[1]] + s[2..n + 1] + [s[n + 1]];
      assert t[1..] == [s[n + 1]] + s[2..n + 1];
    }
  }

  /** Entry 0 does not matter. */
  lemma SameHeap<T>(s: seq<Entry<T>>, t: seq<Entry<T>>)
    requires |s| == |t| >= 1 && (forall i :: 1 <= i < |s| ==> s[i] == t[i]) && Heap(t)
    ensures Heap(s) && Entries(s) == Entries(t)
  {
    assert s[1..] == t[1..];
  }

  /** The two entries under p. */
  lemma Smaller<T>(s: seq<Entry<T>>, p: nat, r: nat)
    requires 1 <= p && 2 * p < |s| && (r == 2 * p || r == 2 * p + 1) && r < |s|
    requires s[r].key <= s[2 * p].key && (2 * p + 1 < |s| ==> s[r].key <= s[2 * p + 1].key)
    ensures forall i :: 2 <= i < |s| && i / 2 == p ==> s[r].key <= s[i].key
  {
    forall i | 2 <= i < |s| && i / 2 == p ensures s[r].key <= s[i].key {
      assert i == 2 * p || i == 2 * p + 1;
    }
  }

  lemma UpDone<T>(s: seq<Entry<T>>, r: nat)
    requires HeapBut(s, r) && 1 <= r < |s| && (r > 1 ==> s[r / 2].key <= s[r].key)
    ensures Heap(s)
  {
  }

  lemma DownDone<T>(s: seq<Entry<T>>, p: nat)
    requires HeapUnder(s, p) && 1 <= p < |s| && forall i :: 2 <= i < |s| && i / 2 == p ==> s[p].key <= s[i].key
    ensures Heap(s)
  {
  }

  lemma EntriesCount<T>(s: seq<Entry<T>>)
    requires s != []
    ensures |Entries(s)| == |s| - 1
  {
  }
}
