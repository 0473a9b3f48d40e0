// ANNmin_k (pr_queue_k.h): the k smallest of the items inserted so far, as an array kept sorted.
module MinK {
  /** mk_node: a key and the index of a point. */
  datatype Node = Node(key: real, info: nat)

  /** A key, or the PQ_NULL_KEY that stands for infinity. */
  datatype Key = Finite(v: real) | Infinite
  {
    predicate Above(x: real) { Infinite? || x < v }
  }

  // ---------- the specification: a stable sort ----------

  /** Insertion after all items that are not larger. */
  function Insert(s: seq<Node>, x: Node): (r: seq<Node>)
    ensures |r| == |s| + 1
  {
    if s == [] || s[|s| - 1].key <= x.key then s + [x] else Insert(s[..|s| - 1], x) + [s[|s| - 1]]
  }

  function Sort(log: seq<Node>): (r: seq<Node>)
    ensures |r| == |log|
  {
    if log == [] then [] else Insert(Sort(log[..|log| - 1]), log[|log| - 1])
  }

  predicate Sorted(s: seq<Node>) {
    forall i, j :: 0 <= i < j < |s| ==> s[i].key <= s[j].key
  }

  function Take(k: nat, s: seq<Node>): seq<Node> {
    if k <= |s| then s[..k] else s
  }

  lemma {:induction false} InsertAt(s: seq<Node>, x: Node, i: nat)
    requires i <= |s| && (forall j :: i <= j < |s| ==> s[j].key > x.key) && (i > 0 ==> s[i - 1].key <= x.key)
    ensures Insert(s, x) == s[..i] + [x] + s[i..]
    decreases |s|
  {
    if i < |s| {
      InsertAt(s[..|s| - 1], x, i);
      assert s[i..] == s[..|s| - 1][i..] + [s[|s| - 1]];
    }
  }

  lemma {:induction false} InsertSorted(s: seq<Node>, x: Node)
    requires Sorted(s)
    ensures Sorted(Insert(s, x)) && forall y :: y in Insert(s, x) <==> y in s || y == x
    decreases |s|
  {
    if s != [] && s[|s| - 1].key > x.key {
      var s' := s[..|s| - 1];
      InsertSorted(s', x);
      var r := Insert(s', x);
      forall i | 0 <= i < |r| ensures r[i].key <= s[|s| - 1].key {
        assert r[i] in r;
      }
      assert s == s' + [s[|s| - 1]];
    }
  }

  lemma {:induction false} SortSorted(log: seq<Node>)
    ensures Sorted(Sort(log)) && forall y :: y in Sort(log) <==> y in log
  {
    hide Insert, Sorted;
    if log != [] {
      SortSorted(log[..|log| - 1]);
      InsertSorted(Sort(log[..|log| - 1]), log[|log| - 1]);
      assert log == log[..|log| - 1] + [log[|log| - 1]];
    } else {
      NothingSorted();
    }
  }

  lemma NothingSorted()
    ensures Sorted([])
  {
  }

  /** Forgetting all but the k smallest before an insertion makes no difference to the k smallest after. */
  lemma {:induction false} TakeInsert(k: nat, s: seq<Node>, x: Node)
    requires Sorted(s)
    ensures Take(k, Insert(Take(k, s), x)) == Take(k, Insert(s, x))
    decreases |s|
  {
    if |s| > k {
      var s', y := s[..|s| - 1], s[|s| - 1];
      if y.key <= x.key {
        if k > 0 { assert s[k - 1].key <= y.key; }
        assert Insert(s[..k], x) == s[..k] + [x];
        assert Insert(s, x) == s + [x];
        assert (s + [x])[..k] == s[..k] == (s[..k] + [x])[..k];
      } else {
        TakeInsert(k, s', x);
        assert s[..k] == s'[..k];
        assert Insert(s, x) == Insert(s', x) + [y];
        assert (Insert(s', x) + [y])[..k] == Insert(s', x)[..k];
      }
    } else {
      assert Take(k, s) == s;
    }
  }

  // ---------- ranks by counting ----------

  /** How many keys are at most t. */
  function CountLe(s: seq<Node>, t: real): nat {
    if s == [] then 0 else CountLe(s[..|s| - 1], t) + if s[|s| - 1].key <= t then 1 else 0
  }

  lemma {:induction false} CountInsert(s: seq<Node>, x: Node, t: real)
    ensures CountLe(Insert(s, x), t) == CountLe(s, t) + if x.key <= t then 1 else 0
    decreases |s|
  {
    if s != [] && s[|s| - 1].key > x.key {
      CountInsert(s[..|s| - 1], x, t);
      assert Insert(s, x)[..|s|] == Insert(s[..|s| - 1], x);
    } else {
      assert (s + [x])[..|s|] == s;
    }
  }

  lemma {:induction false} CountSort(log: seq<Node>, t: real)
    ensures CountLe(Sort(log), t) == CountLe(log, t)
  {
    if log != [] {
      CountSort(log[..|log| - 1], t);
      CountInsert(Sort(log[..|log| - 1]), log[|log| - 1], t);
    }
  }

  lemma {:induction false} CountBounds(s: seq<Node>, t: real)
    ensures CountLe(s, t) <= |s|
    ensures (forall i :: 0 <= i < |s| ==> s[i].key <= t) ==> CountLe(s, t) == |s|
  {
    if s != [] { CountBounds(s[..|s| - 1], t); }
  }

  /** In a sorted list the i-th key is at most t just if more than i keys are. */
  lemma {:induction false} Rank(s: seq<Node>, i: nat, t: real)
    requires Sorted(s) && i < |s|
    ensures s[i].key <= t <==> CountLe(s, t) > i
  {
    var s' := s[..|s| - 1];
    if i < |s| - 1 {
      Rank(s', i, t);
    } else {
      CountBounds(s', t);
      if s[i].key <= t { CountBounds(s, t); }
    }
  }

  // ---------- the class ----------

  class ANNmin_k {
    const k: nat
    const mk: array<Node>
    var n: nat
    /** Everything inserted so far, in order. */
    ghost var log: seq<Node>

    ghost function Contents(): seq<Node>
      reads this, mk
      requires n <= mk.Length
    {
      mk[..n]
    }

    ghost predicate Valid()
      reads this, mk
    {
      1 <= k && mk.Length == k + 1 && n <= k && Contents() == Take(k, Sort(log))
    }

    constructor (max: nat)
      requires max >= 1
      ensures Valid() && k == max && log == [] && fresh(mk)
    {
      k := max;
      n := 0;
      mk := new Node[max + 1](_ => Node(0.0, 0));
      log := [];
    }

    function MaxKey(): (key: Key)
      reads this, mk
      requires Valid()
    {
      if n == k then Finite(mk[k - 1].key) else Infinite
    }

    function IthSmallestKey(i: nat): Key
      reads this, mk
      requires n <= mk.Length
    {
      if i < n then Finite(mk[i].key) else Infinite
    }

    function IthSmallestInfo(i: nat): int
      reads this, mk
      requires n <= mk.Length
    {
      if i < n then mk[i].info else -1
    }

    /** Slide the larger entries up and put the new one below them. */
    method Slide(kv: real, inf: nat) returns (i: nat)
      requires Valid()
      modifies mk
      ensures Opened(old(Contents()), mk[..n + 1], i, Node(kv, inf))
    {
      hide Sort, Take;
      ghost var was := mk[..];
      i := n;
      while i > 0 && mk[i - 1].key > kv
        invariant 0 <= i <= n
        invariant forall j :: 0 <= j < i ==> mk[j] == was[j]
        invariant forall j :: i < j <= n ==> mk[j] == was[j - 1] && mk[j].key > kv
      {
        mk[i] := mk[i - 1];
        i := i - 1;
      }
      mk[i] := Node(kv, inf);
      IsOpened(was[..n], mk[..n + 1], i, Node(kv, inf));
    }

    /** The list stays the k smallest of a stable sort of the insertions. */
    method Add(kv: real, inf: nat)
      requires Valid()
      modifies this, mk
      ensures Valid() && log == old(log) + [Node(kv, inf)]
    {
      hide Sort, Insert, Sorted, Take, Opened;
      TakeLength(k, Sort(log));
      var i := Slide(kv, inf);
      Added(k, log, Node(kv, inf), i, mk[..n + 1]);
      log := log + [Node(kv, inf)];
      if n < k {
        n := n + 1;
      } else {
        assert mk[..n + 1][..n] == mk[..n];
      }
    }
  }

  /** s is a sorted list with x put in at i. */
  predicate Opened(was: seq<Node>, s: seq<Node>, i: nat, x: Node) {
    && i <= |was| && s == was[..i] + [x] + was[i..]
    && (forall j :: i <= j < |was| ==> was[j].key > x.key) && (i > 0 ==> was[i - 1].key <= x.key)
  }

  lemma IsOpened(was: seq<Node>, s: seq<Node>, i: nat, x: Node)
    requires i <= |was| && |s| == |was| + 1 && s[i] == x && (i > 0 ==> s[i - 1].key <= x.key)
    requires forall j :: 0 <= j < i ==> s[j] == was[j]
    requires forall j :: i < j < |s| ==> s[j] == was[j - 1] && s[j].key > x.key
    ensures Opened(was, s, i, x)
  {
    forall j | i <= j < |was| ensures was[j].key > x.key { assert s[j + 1] == was[j]; }
  }

  lemma TakeLength(k: nat, s: seq<Node>)
    ensures |Take(k, s)| == if k <= |s| then k else |s|
  {
  }

  /** The kept items with a new one in its place, of which the first k are kept. */
  lemma Added(k: nat, log: seq<Node>, x: Node, i: nat, s: seq<Node>)
    requires Opened(Take(k, Sort(log)), s, i, x)
    ensures Take(k, Sort(log + [x])) == if |Take(k, Sort(log))| < k then s else s[..k]
  {
    hide Sort, Insert, Sorted;
    SortSorted(log);
    TakeInsert(k, Sort(log), x);
    SortNext(log, x);
    InsertAt(Take(k, Sort(log)), x, i);
  }

  lemma SortNext(log: seq<Node>, x: Node)
    ensures Sort(log + [x]) == Insert(Sort(log), x)
  {
    assert (log + [x])[..|log|] == log;
  }
}
