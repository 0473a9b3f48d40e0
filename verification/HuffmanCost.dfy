// The cost of code lengths, and the two steps of Huffman's argument: any lengths can be changed, at no cost,
// so that two symbols of least count are the longest and equally long, and then these can be merged.
module HuffmanCost {
  import opened Bits

  // ---------- sums over the first n symbols ----------

  function Total(freq: seq<nat>, n: nat): nat
    requires n <= |freq|
  {
    if n == 0 then 0 else Total(freq, n - 1) + freq[n - 1]
  }

  lemma {:induction false} TotalBounds(freq: seq<nat>, n: nat, i: nat)
    requires i < n <= |freq|
    ensures freq[i] <= Total(freq, n)
  {
    if i < n - 1 { TotalBounds(freq, n - 1, i); }
  }

  lemma {:induction false} TotalUpdate(a: seq<nat>, i: nat, v: nat, n: nat)
    requires i < |a| && n <= |a|
    ensures Total(a[i := v], n) + (if i < n then a[i] else 0) == Total(a, n) + (if i < n then v else 0)
    decreases n, v
  {
    if n > 0 { TotalUpdate(a, i, v, n - 1); }
  }

  lemma {:induction false} TotalScaled(a: seq<nat>, q: seq<nat>, u: nat, n: nat)
    requires n <= |a| == |q| && forall s :: 0 <= s < |a| ==> a[s] == q[s] * u
    ensures Total(a, n) == Total(q, n) * u
    decreases n, u
  {
    if n > 0 {
      TotalScaled(a, q, u, n - 1);
      assert (Total(q, n - 1) + q[n - 1]) * u == Total(q, n - 1) * u + q[n - 1] * u;
    }
  }

  /** The counts after a merge. */
  function Merged(freq: seq<nat>, c1: nat, c2: nat): (r: seq<nat>)
    requires c1 < |freq| && c2 < |freq| && c1 != c2
    ensures |r| == |freq|
  {
    freq[c1 := freq[c1] + freq[c2]][c2 := 0]
  }

  // ---------- code lengths ----------

  /** The share of each used symbol, as a number of strings of d bits. */
  function Shares(freq: seq<nat>, l: seq<nat>, d: nat): (r: seq<nat>)
    requires |l| == |freq|
    ensures |r| == |freq|
  {
    seq(|freq|, s requires 0 <= s < |freq| => if freq[s] > 0 && l[s] <= d then Pow2(d - l[s]) else 0)
  }

  /** Code lengths for the used symbols, no longer than d, with Kraft sum at most 1. */
  ghost predicate Lengths(freq: seq<nat>, l: seq<nat>, d: nat) {
    && |l| == |freq| && (forall s :: 0 <= s < |freq| && freq[s] > 0 ==> l[s] <= d)
    && Total(Shares(freq, l, d), |freq|) <= Pow2(d)
  }

  function Products(freq: seq<nat>, l: seq<nat>): (r: seq<nat>)
    requires |l| == |freq|
    ensures |r| == |freq|
  {
    seq(|freq|, s requires 0 <= s < |freq| => freq[s] * l[s])
  }

  /** The bits that all symbols take together. */
  function Cost(freq: seq<nat>, l: seq<nat>): nat
    requires |l| == |freq|
  {
    Total(Products(freq, l), |freq|)
  }

  lemma {:induction false} Pow2Sum(m: nat, n: nat)
    ensures Pow2(m + n) == Pow2(m) * Pow2(n)
    decreases m
  {
    if m > 0 {
      Pow2Sum(m - 1, n);
      assert Pow2(m + n) == 2 * Pow2(m - 1 + n);
      assert 2 * (Pow2(m - 1) * Pow2(n)) == 2 * Pow2(m - 1) * Pow2(n);
    }
  }

  /** Another length for one symbol. */
  lemma OneLength(freq: seq<nat>, l: seq<nat>, d: nat, i: nat, v: nat)
    requires |l| == |freq| && i < |freq| && freq[i] > 0 && v <= d && l[i] <= d
    ensures Total(Shares(freq, l[i := v], d), |freq|) + Pow2(d - l[i]) == Total(Shares(freq, l, d), |freq|) + Pow2(d - v)
    ensures Cost(freq, l[i := v]) + freq[i] * l[i] == Cost(freq, l) + freq[i] * v
  {
    hide Total, Pow2;
    assert Shares(freq, l[i := v], d) == Shares(freq, l, d)[i := Pow2(d - v)];
    TotalUpdate(Shares(freq, l, d), i, Pow2(d - v), |freq|);
    assert Products(freq, l[i := v]) == Products(freq, l)[i := freq[i] * v];
    TotalUpdate(Products(freq, l), i, freq[i] * v, |freq|);
  }

  lemma Exchange(f: nat, g: nat, a: nat, b: nat)
    requires f <= g && a <= b
    ensures f * b + g * a <= f * a + g * b
  {
    assert (g - f) * (b - a) >= 0;
    assert (g - f) * (b - a) == g * b - g * a - f * b + f * a;
  }

  /** Giving the longer length to the smaller count. */
  lemma SwapLengths(freq: seq<nat>, l: seq<nat>, d: nat, c: nat, m: nat) returns (r: seq<nat>)
    requires Lengths(freq, l, d) && c < |freq| && m < |freq| && 0 < freq[c] <= freq[m] && l[c] <= l[m]
    ensures r == l[c := l[m]][m := l[c]] && Lengths(freq, r, d) && Cost(freq, r) <= Cost(freq, l)
  {
    hide Total, Pow2, Shares, Cost;
    r := l[c := l[m]][m := l[c]];
    if c != m {
      OneLength(freq, l, d, c, l[m]);
      OneLength(freq, l[c := l[m]], d, m, l[c]);
      Exchange(freq[c], freq[m], l[c], l[m]);
    } else {
      assert r == l;
    }
  }

  /** A used symbol of greatest length. */
  lemma Longest(freq: seq<nat>, l: seq<nat>, skip: int, c: nat) returns (m: nat)
    requires |l| == |freq| && c < |freq| && freq[c] > 0 && c != skip
    ensures m < |freq| && freq[m] > 0 && m != skip && forall s :: 0 <= s < |freq| && s != skip && freq[s] > 0 ==> l[s] <= l[m]
  {
    m := c;
    for k := 0 to |freq|
      invariant m < |freq| && freq[m] > 0 && m != skip && forall s :: 0 <= s < k && s != skip && freq[s] > 0 ==> l[s] <= l[m]
    {
      if freq[k] > 0 && k != skip && l[k] > l[m] { m := k; }
    }
  }

  predicate Least(freq: seq<nat>, skip: int, c: nat) {
    c < |freq| && c != skip && freq[c] > 0 && forall i :: 0 <= i < |freq| && i != skip && freq[i] > 0 ==> freq[c] <= freq[i]
  }

  /** The two symbols of least count can be given the two greatest lengths. */
  lemma LeastLongest(freq: seq<nat>, l: seq<nat>, d: nat, c1: nat, c2: nat) returns (r: seq<nat>)
    requires Lengths(freq, l, d) && Least(freq, -1, c1) && Least(freq, c1, c2)
    ensures Lengths(freq, r, d) && Cost(freq, r) <= Cost(freq, l)
    ensures r[c2] <= r[c1] && forall s :: 0 <= s < |freq| && s != c1 && freq[s] > 0 ==> r[s] <= r[c2]
  {
    hide Total, Pow2, Shares, Cost;
    var m1 := Longest(freq, l, -1, c1);
    var l1 := SwapLengths(freq, l, d, c1, m1);
    var m2 := Longest(freq, l1, c1, c2);
    r := SwapLengths(freq, l1, d, c2, m2);
  }

  /** How often the string of d - b bits that ends a code of length b fits into a share of a shorter code. */
  function Parts(freq: seq<nat>, l: seq<nat>, c: nat, b: nat): (q: seq<nat>)
    requires |l| == |freq|
    ensures |q| == |freq|
  {
    seq(|freq|, s requires 0 <= s < |freq| => if s != c && freq[s] > 0 && l[s] <= b then Pow2(b - l[s]) else 0)
  }

  /** The longest code can be as short as the next longest: the shares of the others leave that much room. */
  lemma Shorten(freq: seq<nat>, l: seq<nat>, d: nat, c: nat, b: nat)
    requires Lengths(freq, l, d) && c < |freq| && freq[c] > 0 && b <= l[c]
    requires forall s :: 0 <= s < |freq| && s != c && freq[s] > 0 ==> l[s] <= b
    ensures Lengths(freq, l[c := b], d) && Cost(freq, l[c := b]) <= Cost(freq, l)
  {
    hide Total, Pow2, Cost;
    var n, u, q := |freq|, Pow2(d - b), Parts(freq, l, c, b);
    var rest := Shares(freq, l, d)[c := 0];
    forall s | 0 <= s < n ensures rest[s] == q[s] * u {
      if s != c && freq[s] > 0 { Pow2Sum(b - l[s], d - b); }
    }
    TotalScaled(rest, q, u, n);
    TotalUpdate(Shares(freq, l, d), c, 0, n);
    OneLength(freq, l, d, c, b);
    Pow2Sum(b, d - b);
    Pow2Positive(d - l[c]);
    RoomFor(Total(q, n), Pow2(b), u, Pow2(d - l[c]));
    Smaller(freq[c], b, l[c]);
  }

  lemma RoomFor(q: nat, p: nat, u: nat, x: nat)
    requires q * u + x <= p * u && x > 0
    ensures q * u + u <= p * u
  {
    if q >= p { Smaller(u, p, q); }
    Smaller(u, q + 1, p);
  }

  lemma Smaller(f: nat, b: nat, a: nat)
    requires b <= a
    ensures f * b <= f * a
  {
  }

  lemma MergedShares(freq: seq<nat>, l: seq<nat>, d: nat, c1: nat, c2: nat)
    requires |l| == |freq| && c1 < |freq| && c2 < |freq| && c1 != c2 && freq[c1] > 0 && freq[c2] > 0 && l[c1] == l[c2] <= d
    ensures l[c1] == 0 ==> Total(Shares(freq, l, d), |freq|) >= 2 * Pow2(d)
    ensures l[c1] > 0 ==> Total(Shares(Merged(freq, c1, c2), l[c1 := l[c1] - 1], d), |freq|) == Total(Shares(freq, l, d), |freq|)
  {
    hide Total, Pow2;
    var n, a, shares := |freq|, l[c1], Shares(freq, l, d);
    var part: seq<nat> := shares[c1 := 0];
    var rest: seq<nat> := part[c2 := 0];
    TotalUpdate(shares, c1, 0, n);
    TotalUpdate(part, c2, 0, n);
    if a > 0 {
      Pow2Next(d - a);
      assert Shares(Merged(freq, c1, c2), l[c1 := a - 1], d) == rest[c1 := Pow2(d - a + 1)];
      TotalUpdate(rest, c1, Pow2(d - a + 1), n);
    }
  }

  lemma MergedCost(freq: seq<nat>, l: seq<nat>, c1: nat, c2: nat)
    requires |l| == |freq| && c1 < |freq| && c2 < |freq| && c1 != c2 && l[c1] == l[c2] > 0
    ensures Cost(Merged(freq, c1, c2), l[c1 := l[c1] - 1]) + freq[c1] + freq[c2] == Cost(freq, l)
  {
    hide Total;
    var n, a, products := |freq|, l[c1], Products(freq, l);
    var both: nat := (freq[c1] + freq[c2]) * (a - 1);
    var part: seq<nat> := products[c1 := both];
    assert Products(Merged(freq, c1, c2), l[c1 := a - 1]) == part[c2 := 0];
    TotalUpdate(products, c1, both, n);
    TotalUpdate(part, c2, 0, n);
    assert both + freq[c1] + freq[c2] == freq[c1] * a + freq[c2] * a;
  }

  /** Two codes of the same length become one that is a bit shorter. */
  lemma MergeEqual(freq: seq<nat>, l: seq<nat>, d: nat, c1: nat, c2: nat)
    requires Lengths(freq, l, d) && c1 < |freq| && c2 < |freq| && c1 != c2 && freq[c1] > 0 && freq[c2] > 0 && l[c1] == l[c2]
    ensures l[c1] > 0 && Lengths(Merged(freq, c1, c2), l[c1 := l[c1] - 1], d)
    ensures Cost(Merged(freq, c1, c2), l[c1 := l[c1] - 1]) + freq[c1] + freq[c2] == Cost(freq, l)
  {
    hide Total, Pow2, Shares, Cost;
    MergedShares(freq, l, d, c1, c2);
    Pow2Positive(d);
    if l[c1] > 0 { MergedCost(freq, l, c1, c2); }
  }

  lemma Pow2Next(n: nat)
    ensures Pow2(n + 1) == 2 * Pow2(n)
  {
  }

  /** Huffman's step: for any lengths there are lengths after the merge that cost less by the two counts. */
  lemma MergeCheaper(freq: seq<nat>, l: seq<nat>, d: nat, c1: nat, c2: nat) returns (m: seq<nat>)
    requires Lengths(freq, l, d) && Least(freq, -1, c1) && Least(freq, c1, c2)
    ensures Lengths(Merged(freq, c1, c2), m, d) && Cost(Merged(freq, c1, c2), m) + freq[c1] + freq[c2] <= Cost(freq, l)
  {
    hide Total, Pow2, Shares, Cost, Merged;
    var r := LeastLongest(freq, l, d, c1, c2);
    Shorten(freq, r, d, c1, r[c2]);
    var e := r[c1 := r[c2]];
    MergeEqual(freq, e, d, c1, c2);
    m := e[c1 := e[c1] - 1];
  }
}
