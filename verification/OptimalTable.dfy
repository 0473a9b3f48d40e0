// jpeg_gen_optimal_table (jchuff.c, section K.2 of T.81): Huffman's procedure on an array of counts with
// chained branches, the adjustment to sixteen bits, and why the result is always a legal table.
module OptimalTable {
  import opened Wrappers
  import opened Bits
  import opened HuffmanTable
  import opened DerivedTables
  import opened AcBlocks
  import opened HuffmanCost

  const MAX_CLEN: nat := 32
  const MAX_COUNT: nat := 1_000_000_000
  const PSEUDO: nat := 256
  const SLOTS: nat := 257

  // ---------- counts ----------

  /** How many counts are not zero. */
  function Live(freq: seq<nat>, n: nat): nat
    requires n <= |freq|
  {
    if n == 0 then 0 else Live(freq, n - 1) + if freq[n - 1] > 0 then 1 else 0
  }

  lemma {:induction false} MergedSums(freq: seq<nat>, c1: nat, c2: nat, n: nat)
    requires n <= |freq| && c1 < |freq| && c2 < |freq| && c1 != c2 && freq[c1] > 0 && freq[c2] > 0
    ensures Live(Merged(freq, c1, c2), n) + (if c2 < n then 1 else 0) == Live(freq, n)
    ensures Total(Merged(freq, c1, c2), n) + (if c2 < n then freq[c2] else 0) == Total(freq, n) + if c1 < n then freq[c2] else 0
  {
    if n > 0 { MergedSums(freq, c1, c2, n - 1); }
  }

  lemma {:induction false} LiveBound(freq: seq<nat>, n: nat)
    requires n <= |freq|
    ensures Live(freq, n) <= n
  {
    if n > 0 { LiveBound(freq, n - 1); }
  }

  lemma {:induction false} LiveTwo(freq: seq<nat>, n: nat, i: nat, j: nat)
    requires i < j < n <= |freq| && freq[i] > 0 && freq[j] > 0
    ensures Live(freq, n) >= 2
  {
    if j < n - 1 { LiveTwo(freq, n - 1, i, j); } else { LiveOne(freq, n - 1, i); }
  }

  lemma {:induction false} LiveOne(freq: seq<nat>, n: nat, i: nat)
    requires i < n <= |freq| && freq[i] > 0
    ensures Live(freq, n) >= 1
  {
    if i < n - 1 { LiveOne(freq, n - 1, i); }
  }

  // ---------- Huffman's procedure ----------

  /** The smallest nonzero count apart from that of `skip`; in case of ties the larger symbol. */
  method Smallest(freq: array<nat>, skip: int) returns (c: int)
    requires freq.Length == SLOTS
    ensures -1 <= c < SLOTS && (c >= 0 ==> c != skip)
    ensures c >= 0 ==> freq[c] > 0 && forall i :: 0 <= i < SLOTS && i != skip && freq[i] > 0 ==> freq[c] < freq[i] || (freq[c] == freq[i] && i <= c)
    ensures c < 0 ==> forall i :: 0 <= i < SLOTS && i != skip && freq[i] > 0 ==> freq[i] > MAX_COUNT
  {
    c := -1;
    var v := MAX_COUNT;
    for i := 0 to SLOTS
      invariant -1 <= c < i && (c >= 0 ==> c != skip && freq[c] == v > 0)
      invariant c < 0 ==> v == MAX_COUNT
      invariant forall k :: 0 <= k < i && k != skip && freq[k] > 0 ==> v < freq[k] || (c >= 0 && v == freq[k] && k <= c)
    {
      if freq[i] != 0 && freq[i] <= v && i != skip {
        v := freq[i];
        c := i;
      }
    }
  }

  /** The branches of the forest: chain[i] lists the symbols under root i, linked through `others`. */
  ghost predicate Linked(others: seq<int>, ls: seq<nat>) {
    && |others| == SLOTS && ls != [] && (forall k :: 0 <= k < |ls| ==> ls[k] < SLOTS)
    && (forall k {:trigger ls[k]} :: 0 <= k < |ls| - 1 ==> others[ls[k]] == ls[k + 1])
    && others[ls[|ls| - 1]] == -1
    && (forall j, k :: 0 <= j < k < |ls| ==> ls[j] != ls[k])
  }

  lemma LinkStarts(others: seq<int>, ls: seq<nat>)
    requires Linked(others, ls)
    ensures |others| == SLOTS && 0 < |ls| && ls[0] < SLOTS
  {
  }

  lemma LinkStep(others: seq<int>, ls: seq<nat>, k: nat)
    requires Linked(others, ls) && k < |ls|
    ensures ls[k] < SLOTS && (others[ls[k]] >= 0 <==> k + 1 < |ls|)
    ensures k + 1 < |ls| ==> others[ls[k]] == ls[k + 1] < SLOTS && ls[k + 1] !in ls[..k + 1]
  {
  }

  /** Add one to the code size of every symbol of a branch; returns the end of the branch. */
  method Deepen(codesize: array<nat>, others: array<int>, c0: nat, ghost ls: seq<nat>) returns (c: nat)
    requires codesize.Length == others.Length == SLOTS && Linked(others[..], ls) && ls[0] == c0
    modifies codesize
    ensures c == ls[|ls| - 1] < SLOTS
    ensures forall s :: 0 <= s < SLOTS ==> codesize[s] == old(codesize[s]) + if s in ls then 1 else 0
  {
    hide Linked;
    LinkStarts(others[..], ls);
    LinkStep(others[..], ls, 0);
    c := c0;
    ghost var k := 0;
    codesize[c] := codesize[c] + 1;
    assert ls[..1] == [c0];
    while others[c] >= 0
      invariant 0 <= k < |ls| && c == ls[k] < SLOTS
      invariant others[c] >= 0 <==> k + 1 < |ls|
      invariant forall s :: 0 <= s < SLOTS ==> codesize[s] == old(codesize[s]) + if s in ls[..k + 1] then 1 else 0
      decreases |ls| - k
    {
      LinkStep(others[..], ls, k);
      LinkStep(others[..], ls, k + 1);
      c := others[c];
      k := k + 1;
      assert ls[..k + 1] == ls[..k] + [c];
      codesize[c] := codesize[c] + 1;
    }
    assert ls[..k + 1] == ls;
  }

  /** A branch of code sizes, scaled: the sum of 2^(256 - size) over the symbols under root i. */
  function Kraft(size: seq<nat>, owner: seq<int>, i: int, n: nat): nat
    requires n <= |size| == |owner|
  {
    if n == 0 then 0
    else Kraft(size, owner, i, n - 1) + if owner[n - 1] == i && size[n - 1] <= 256 then Pow2(256 - size[n - 1]) else 0
  }

  /** The forest that the arrays hold: `owner` gives the root above every used symbol, -1 for unused
      ones.  Branches are disjoint chains that cover the used symbols, and each is a complete binary
      code. */
  ghost predicate Forest(freq: seq<nat>, size: seq<nat>, others: seq<int>, owner: seq<int>, chains: seq<seq<nat>>, merges: nat) {
    && |freq| == |size| == |others| == |owner| == |chains| == SLOTS
    && Owned(freq, owner, chains) && Chained(freq, others, chains) && Sized(size, owner, chains, merges) && Balanced(freq, size, owner)
    && merges + Live(freq, SLOTS) <= SLOTS
  }

  ghost predicate Owned(freq: seq<nat>, owner: seq<int>, chains: seq<seq<nat>>)
    requires |freq| == |owner| == |chains| == SLOTS
  {
    && (forall s :: 0 <= s < SLOTS ==> -1 <= owner[s] < SLOTS)
    && (forall s :: 0 <= s < SLOTS && owner[s] >= 0 ==> freq[owner[s]] > 0 && s in chains[owner[s]])
    && (forall i: nat, s: nat {:trigger s in chains[i]} :: i < SLOTS && freq[i] > 0 && s in chains[i] ==> s < SLOTS && owner[s] == i)
  }

  ghost predicate Chained(freq: seq<nat>, others: seq<int>, chains: seq<seq<nat>>)
    requires |freq| == |others| == |chains| == SLOTS
  {
    forall i :: 0 <= i < SLOTS && freq[i] > 0 ==> Linked(others, chains[i]) && chains[i][0] == i
  }

  ghost predicate Sized(size: seq<nat>, owner: seq<int>, chains: seq<seq<nat>>, merges: nat)
    requires |size| == |owner| == |chains| == SLOTS && forall s :: 0 <= s < SLOTS ==> -1 <= owner[s] < SLOTS
  {
    && (forall s :: 0 <= s < SLOTS && owner[s] < 0 ==> size[s] == 0)
    && (forall s :: 0 <= s < SLOTS && owner[s] >= 0 ==> size[s] <= merges && (size[s] == 0 ==> chains[owner[s]] == [s]))
  }

  ghost predicate Balanced(freq: seq<nat>, size: seq<nat>, owner: seq<int>)
    requires |freq| == |size| == |owner| == SLOTS
  {
    forall i :: 0 <= i < SLOTS && freq[i] > 0 ==> Kraft(size, owner, i, SLOTS) == Pow2(256)
  }

  function Owner'(owner: seq<int>, c1: nat, c2: nat): (r: seq<int>)
    ensures |r| == |owner|
  {
    seq(|owner|, s requires 0 <= s < |owner| => if owner[s] == c2 then c1 else owner[s])
  }

  function Size'(size: seq<nat>, owner: seq<int>, c1: nat, c2: nat): (r: seq<nat>)
    requires |size| == |owner|
    ensures |r| == |size|
  {
    seq(|size|, s requires 0 <= s < |size| => size[s] + if owner[s] == c1 || owner[s] == c2 then 1 else 0)
  }

  /** Joining two complete codes one level down gives a complete code. */
  lemma {:induction false} KraftMerge(size: seq<nat>, owner: seq<int>, c1: nat, c2: nat, i: int, n: nat)
    requires n <= |size| == |owner| && c1 != c2 && i != c2
    requires forall s :: 0 <= s < |size| && owner[s] >= 0 ==> size[s] < 256
    ensures i == c1 ==> 2 * Kraft(Size'(size, owner, c1, c2), Owner'(owner, c1, c2), c1, n) == Kraft(size, owner, c1, n) + Kraft(size, owner, c2, n)
    ensures i != c1 && i >= 0 ==> Kraft(Size'(size, owner, c1, c2), Owner'(owner, c1, c2), i, n) == Kraft(size, owner, i, n)
  {
    hide Pow2;
    if n > 0 {
      KraftMerge(size, owner, c1, c2, i, n - 1);
      if owner[n - 1] >= 0 { Pow2Double(255 - size[n - 1]); }
    }
  }

  lemma LinkedJoin(others: seq<int>, a: seq<nat>, b: seq<nat>)
    requires Linked(others, a) && Linked(others, b) && forall s :: s in a ==> s !in b
    ensures Linked(others[a[|a| - 1] := b[0]], a + b)
  {
    var ls, others' := a + b, others[a[|a| - 1] := b[0]];
    forall k | 0 <= k < |ls| - 1 ensures others'[ls[k]] == ls[k + 1] {
      if k >= |a| { assert b[k - |a|] !in a; }
    }
    forall j, k | 0 <= j < k < |ls| ensures ls[j] != ls[k] {
      if j < |a| <= k { assert a[j] !in b && b[k - |a|] in b; }
    }
    assert b[|b| - 1] !in a;
  }

  lemma LinkedElsewhere(others: seq<int>, a: seq<nat>, s: nat, v: int)
    requires Linked(others, a) && s < SLOTS && s !in a
    ensures Linked(others[s := v], a)
  {
  }

  lemma MergeOwned(freq: seq<nat>, owner: seq<int>, chains: seq<seq<nat>>, c1: nat, c2: nat)
    requires |freq| == |owner| == |chains| == SLOTS && Owned(freq, owner, chains)
    requires c1 < SLOTS && c2 < SLOTS && c1 != c2 && freq[c1] > 0 && freq[c2] > 0
    ensures Owned(Merged(freq, c1, c2), Owner'(owner, c1, c2), chains[c1 := chains[c1] + chains[c2]])
    ensures forall s :: s in chains[c1] ==> s !in chains[c2]
  {
    var freq', owner', chains' := Merged(freq, c1, c2), Owner'(owner, c1, c2), chains[c1 := chains[c1] + chains[c2]];
    forall s | s in chains[c1] ensures s !in chains[c2] {
      assert s < SLOTS && owner[s] == c1;
    }
    forall i: nat, s: nat | i < SLOTS && freq'[i] > 0 && s in chains'[i] ensures s < SLOTS && owner'[s] == i {
      if i == c1 {
        assert s in chains[c1] || s in chains[c2];
      } else {
        assert s in chains[i];
      }
    }
  }

  lemma MergeChained(freq: seq<nat>, others: seq<int>, owner: seq<int>, chains: seq<seq<nat>>, c1: nat, c2: nat)
    requires |freq| == |others| == |owner| == |chains| == SLOTS && Owned(freq, owner, chains) && Chained(freq, others, chains)
    requires c1 < SLOTS && c2 < SLOTS && c1 != c2 && freq[c1] > 0 && freq[c2] > 0
    ensures var a := chains[c1];
      && |a| > 0 && a[|a| - 1] < SLOTS
      && Chained(Merged(freq, c1, c2), others[a[|a| - 1] := c2], chains[c1 := a + chains[c2]])
  {
    hide Linked, Owned;
    var a, b := chains[c1], chains[c2];
    MergeOwned(freq, owner, chains, c1, c2);
    LinkStarts(others, a);
    LinkStep(others, a, |a| - 1);
    LinkStarts(others, b);
    LinkedJoin(others, a, b);
    var freq', others', chains' := Merged(freq, c1, c2), others[a[|a| - 1] := c2], chains[c1 := a + b];
    forall i | 0 <= i < SLOTS && freq'[i] > 0 ensures Linked(others', chains'[i]) && chains'[i] != [] && chains'[i][0] == i {
      if i != c1 {
        LinkStarts(others, chains[i]);
        OtherChain(freq, owner, chains, c1, i, a[|a| - 1]);
        LinkedElsewhere(others, chains[i], a[|a| - 1], c2);
      }
    }
  }

  lemma OtherChain(freq: seq<nat>, owner: seq<int>, chains: seq<seq<nat>>, i: nat, j: nat, s: nat)
    requires |freq| == |owner| == |chains| == SLOTS && Owned(freq, owner, chains)
    requires i < SLOTS && j < SLOTS && i != j && freq[i] > 0 && freq[j] > 0 && s in chains[i]
    ensures s !in chains[j]
  {
    assert s < SLOTS && owner[s] == i;
  }

  lemma MergeSized(freq: seq<nat>, size: seq<nat>, owner: seq<int>, chains: seq<seq<nat>>, merges: nat, c1: nat, c2: nat)
    requires |freq| == |size| == |owner| == |chains| == SLOTS && Owned(freq, owner, chains) && Sized(size, owner, chains, merges)
    requires c1 < SLOTS && c2 < SLOTS && c1 != c2
    ensures (forall s :: 0 <= s < SLOTS ==> -1 <= Owner'(owner, c1, c2)[s] < SLOTS)
    ensures Sized(Size'(size, owner, c1, c2), Owner'(owner, c1, c2), chains[c1 := chains[c1] + chains[c2]], merges + 1)
  {
  }

  /** One merge keeps the forest. */
  lemma ForestMerge(freq: seq<nat>, size: seq<nat>, others: seq<int>, owner: seq<int>, chains: seq<seq<nat>>, merges: nat,
                    c1: nat, c2: nat)
    requires Forest(freq, size, others, owner, chains, merges) && c1 < SLOTS && c2 < SLOTS && c1 != c2 && freq[c1] > 0 && freq[c2] > 0
    ensures var a, b := chains[c1], chains[c2];
      && |a| > 0 && a[|a| - 1] < SLOTS
      && Forest(Merged(freq, c1, c2), Size'(size, owner, c1, c2), others[a[|a| - 1] := c2], Owner'(owner, c1, c2), chains[c1 := a + b], merges + 1)
  {
    hide Chained, Kraft, Live, Pow2, Merged, Owner', Size';
    MergeOwned(freq, owner, chains, c1, c2);
    MergeChained(freq, others, owner, chains, c1, c2);
    MergeSized(freq, size, owner, chains, merges, c1, c2);
    MergedSums(freq, c1, c2, SLOTS);
    MergedLive(freq, c1, c2);
    MergeBalanced(freq, size, owner, chains, merges, c1, c2);
  }

  lemma MergeBalanced(freq: seq<nat>, size: seq<nat>, owner: seq<int>, chains: seq<seq<nat>>, merges: nat, c1: nat, c2: nat)
    requires |freq| == |size| == |owner| == |chains| == SLOTS && Owned(freq, owner, chains) && Balanced(freq, size, owner)
    requires Sized(size, owner, chains, merges) && merges < 256
    requires c1 < SLOTS && c2 < SLOTS && c1 != c2 && freq[c1] > 0 && freq[c2] > 0
    ensures Balanced(Merged(freq, c1, c2), Size'(size, owner, c1, c2), Owner'(owner, c1, c2))
  {
    hide Kraft, Pow2;
    var freq', size', owner' := Merged(freq, c1, c2), Size'(size, owner, c1, c2), Owner'(owner, c1, c2);
    forall i | 0 <= i < SLOTS && freq'[i] > 0 ensures Kraft(size', owner', i, SLOTS) == Pow2(256) {
      KraftMerge(size, owner, c1, c2, i, SLOTS);
    }
  }

  lemma MergedLive(freq: seq<nat>, c1: nat, c2: nat)
    requires |freq| == SLOTS && c1 < SLOTS && c2 < SLOTS && c1 != c2 && freq[c1] > 0 && freq[c2] > 0
    ensures Live(freq, SLOTS) >= 2
  {
    if c1 < c2 { LiveTwo(freq, SLOTS, c1, c2); } else { LiveTwo(freq, SLOTS, c2, c1); }
  }

  /** The sum of 2^(m - size) over the coded symbols. */
  function KraftAll(size: seq<nat>, m: nat, n: nat): nat
    requires n <= |size|
  {
    if n == 0 then 0
    else KraftAll(size, m, n - 1) + if 0 < size[n - 1] <= m then Pow2(m - size[n - 1]) else 0
  }

  ghost function Alone(freq: seq<nat>): (owner: seq<int>)
    ensures |owner| == |freq|
  {
    seq(|freq|, s requires 0 <= s < |freq| => if freq[s] > 0 then s else -1)
  }

  lemma {:induction false} KraftAlone(size: seq<nat>, freq: seq<nat>, i: nat, n: nat)
    requires n <= |size| == |freq| && i < |freq| && freq[i] > 0 && forall s :: 0 <= s < |size| ==> size[s] == 0
    ensures Kraft(size, Alone(freq), i, n) == if i < n then Pow2(256) else 0
  {
    hide Pow2;
    if n > 0 { KraftAlone(size, freq, i, n - 1); }
  }

  lemma ForestStarts(freq: seq<nat>, size: seq<nat>, others: seq<int>)
    requires |freq| == |size| == |others| == SLOTS
    requires (forall s :: 0 <= s < SLOTS ==> size[s] == 0) && (forall s :: 0 <= s < SLOTS ==> others[s] == -1)
    ensures Forest(freq, size, others, Alone(freq), seq(SLOTS, i => [i]), 0)
  {
    hide Kraft, Live, Pow2;
    LiveBound(freq, SLOTS);
    forall i | 0 <= i < SLOTS && freq[i] > 0 ensures Kraft(size, Alone(freq), i, SLOTS) == Pow2(256) {
      KraftAlone(size, freq, i, SLOTS);
    }
  }

  lemma {:induction false} KraftEnds(size: seq<nat>, owner: seq<int>, r: nat, n: nat)
    requires n <= |size| == |owner| == SLOTS && r < SLOTS
    requires forall s :: 0 <= s < SLOTS ==> (size[s] > 0 <==> owner[s] == r) && size[s] <= 256
    ensures KraftAll(size, 256, n) == Kraft(size, owner, r, n)
  {
    hide Pow2;
    if n > 0 { KraftEnds(size, owner, r, n - 1); }
  }

  /** A single tree that holds at least two symbols codes every used symbol. */
  lemma ForestEnds(freq: seq<nat>, size: seq<nat>, others: seq<int>, owner: seq<int>, chains: seq<seq<nat>>, merges: nat,
                   r: nat, s1: nat, s2: nat)
    requires Forest(freq, size, others, owner, chains, merges) && r < SLOTS && freq[r] > 0
    requires forall i :: 0 <= i < SLOTS && i != r ==> freq[i] == 0
    requires s1 < SLOTS && s2 < SLOTS && s1 != s2 && owner[s1] >= 0 && owner[s2] >= 0
    ensures forall s :: 0 <= s < SLOTS ==> (size[s] > 0 <==> owner[s] >= 0)
    ensures KraftAll(size, 256, SLOTS) == Pow2(256)
  {
    hide Kraft, KraftAll, Live, Pow2, Chained;
    LiveSingle(freq, r);
    assert s1 in chains[r] && s2 in chains[r];
    forall s | 0 <= s < SLOTS && owner[s] >= 0 ensures size[s] > 0 && owner[s] == r {
      assert s in chains[r];
    }
    KraftEnds(size, owner, r, SLOTS);
  }

  lemma LiveSingle(freq: seq<nat>, r: nat)
    requires |freq| == SLOTS && r < SLOTS && freq[r] > 0
    ensures Live(freq, SLOTS) >= 1
  {
    LiveOne(freq, SLOTS, r);
  }

  lemma ForestUse(freq: seq<nat>, size: seq<nat>, others: seq<int>, owner: seq<int>, chains: seq<seq<nat>>, merges: nat, s: nat)
    requires Forest(freq, size, others, owner, chains, merges) && s < SLOTS && owner[s] >= 0
    ensures owner[s] < SLOTS && freq[owner[s]] > 0
    ensures forall t :: 0 <= t < SLOTS ==> size[t] <= 256
  {
    hide Kraft, Live, Pow2, Linked;
    LiveSingle(freq, owner[s]);
  }

  lemma AllSmall(freq: seq<nat>)
    requires |freq| == SLOTS && Total(freq, SLOTS) <= MAX_COUNT
    ensures forall i :: 0 <= i < SLOTS ==> freq[i] <= MAX_COUNT
  {
    forall i | 0 <= i < SLOTS ensures freq[i] <= MAX_COUNT { TotalBounds(freq, SLOTS, i); }
  }

  /** What merging needs to know of the forest. */
  lemma ForestBranches(freq: seq<nat>, size: seq<nat>, others: seq<int>, owner: seq<int>, chains: seq<seq<nat>>, merges: nat, c1: nat, c2: nat)
    requires Forest(freq, size, others, owner, chains, merges) && c1 < SLOTS && c2 < SLOTS && c1 != c2 && freq[c1] > 0 && freq[c2] > 0
    ensures Linked(others, chains[c1]) && chains[c1][0] == c1 && Linked(others, chains[c2]) && chains[c2][0] == c2
    ensures Linked(others[chains[c1][|chains[c1]| - 1] := c2], chains[c2])
    ensures forall s: nat {:trigger owner[s]} :: s < SLOTS ==> (s in chains[c1] <==> owner[s] == c1) && (s in chains[c2] <==> owner[s] == c2)
  {
    hide Kraft, Live, Pow2, Linked;
    var a := chains[c1];
    LinkStarts(others, a);
    LinkStep(others, a, |a| - 1);
    assert a[|a| - 1] in chains[c1];
    OtherChain(freq, owner, chains, c1, c2, a[|a| - 1]);
    LinkedElsewhere(others, chains[c2], a[|a| - 1], c2);
  }

  // ---------- why the result is best ----------

  /** The original counts under root i. */
  function Under(counts: seq<nat>, owner: seq<int>, i: int, n: nat): nat
    requires n <= |counts| == |owner|
  {
    if n == 0 then 0 else Under(counts, owner, i, n - 1) + if owner[n - 1] == i then counts[n - 1] else 0
  }

  ghost predicate Tallied(counts: seq<nat>, freq: seq<nat>, owner: seq<int>) {
    |counts| == |freq| == |owner| && forall i :: 0 <= i < |freq| && freq[i] > 0 ==> Under(counts, owner, i, |counts|) == freq[i]
  }

  /** Whatever the code lengths for the original symbols, there are lengths for the present roots that cost
      less by what the branches cost already. */
  ghost predicate Reduces(counts: seq<nat>, size: seq<nat>, freq: seq<nat>) {
    && |counts| == |size| == |freq|
    && forall l, d :: Lengths(counts, l, d) ==> exists m :: Lengths(freq, m, d) && Cost(freq, m) + Cost(counts, size) <= Cost(counts, l)
  }

  lemma {:induction false} UnderAlone(freq: seq<nat>, i: nat, n: nat)
    requires n <= |freq| && i < |freq| && freq[i] > 0
    ensures Under(freq, Alone(freq), i, n) == if i < n then freq[i] else 0
    decreases n, i
  {
    if n > 0 { UnderAlone(freq, i, n - 1); }
  }

  lemma {:induction false} UnderMerge(counts: seq<nat>, owner: seq<int>, c1: nat, c2: nat, i: nat, n: nat)
    requires n <= |counts| == |owner| && c1 != c2 && i != c2
    ensures var owner' := Owner'(owner, c1, c2);
      Under(counts, owner', i, n) == Under(counts, owner, i, n) + if i == c1 then Under(counts, owner, c2, n) else 0
    decreases n, i
  {
    if n > 0 { UnderMerge(counts, owner, c1, c2, i, n - 1); }
  }

  lemma {:induction false} NoCost(counts: seq<nat>, size: seq<nat>, n: nat)
    requires n <= |counts| == |size| && forall s :: 0 <= s < |size| ==> size[s] == 0
    ensures Total(Products(counts, size), n) == 0
  {
    if n > 0 { NoCost(counts, size, n - 1); }
  }

  /** One more bit for all symbols under two roots. */
  lemma {:induction false} CostDeeper(counts: seq<nat>, size: seq<nat>, owner: seq<int>, c1: nat, c2: nat, n: nat)
    requires n <= |counts| == |size| == |owner| && c1 != c2
    ensures Total(Products(counts, Size'(size, owner, c1, c2)), n)
         == Total(Products(counts, size), n) + Under(counts, owner, c1, n) + Under(counts, owner, c2, n)
    decreases n, c1
  {
    if n > 0 {
      CostDeeper(counts, size, owner, c1, c2, n - 1);
      var f, z := counts[n - 1], size[n - 1];
      assert f * (z + 1) == f * z + f;
    }
  }

  lemma ReducesStarts(counts: seq<nat>, size: seq<nat>)
    requires |counts| == |size| && forall s :: 0 <= s < |size| ==> size[s] == 0
    ensures Tallied(counts, counts, Alone(counts)) && Reduces(counts, size, counts)
  {
    hide Shares, Total, Under, Pow2;
    NoCost(counts, size, |counts|);
    forall i | 0 <= i < |counts| && counts[i] > 0 ensures Under(counts, Alone(counts), i, |counts|) == counts[i] {
      UnderAlone(counts, i, |counts|);
    }
    forall l, d | Lengths(counts, l, d) ensures exists m :: Lengths(counts, m, d) && Cost(counts, m) + Cost(counts, size) <= Cost(counts, l) {
      assert Cost(counts, l) + Cost(counts, size) <= Cost(counts, l);
    }
  }

  lemma ReducesMerge(counts: seq<nat>, size: seq<nat>, freq: seq<nat>, owner: seq<int>, c1: nat, c2: nat)
    requires |owner| == |counts| && Tallied(counts, freq, owner) && Reduces(counts, size, freq)
    requires Least(freq, -1, c1) && Least(freq, c1, c2)
    ensures Tallied(counts, Merged(freq, c1, c2), Owner'(owner, c1, c2))
    ensures Reduces(counts, Size'(size, owner, c1, c2), Merged(freq, c1, c2))
  {
    hide Shares, Total, Under, Owner', Size', Products, Pow2;
    var n, f, size' := |counts|, Merged(freq, c1, c2), Size'(size, owner, c1, c2);
    CostDeeper(counts, size, owner, c1, c2, n);
    forall i | 0 <= i < n && f[i] > 0 ensures Under(counts, Owner'(owner, c1, c2), i, n) == f[i] {
      UnderMerge(counts, owner, c1, c2, i, n);
    }
    forall l, d | Lengths(counts, l, d) ensures exists m :: Lengths(f, m, d) && Cost(f, m) + Cost(counts, size') <= Cost(counts, l) {
      var m :| Lengths(freq, m, d) && Cost(freq, m) + Cost(counts, size) <= Cost(counts, l);
      var m' := MergeCheaper(freq, m, d, c1, c2);
    }
  }

  /** No code lengths cost less than the sizes. */
  ghost predicate Cheapest(counts: seq<nat>, size: seq<nat>) {
    |size| == |counts| && forall l, d :: Lengths(counts, l, d) ==> Cost(counts, size) <= Cost(counts, l)
  }

  /** The sum over the coded symbols is the sum of their shares. */
  lemma {:induction false} KraftShares(counts: seq<nat>, size: seq<nat>, m: nat, n: nat)
    requires n <= |counts| == |size| && forall s :: 0 <= s < |size| ==> (size[s] > 0 <==> counts[s] > 0)
    ensures KraftAll(size, m, n) == Total(Shares(counts, size, m), n)
    decreases n, m
  {
    hide Pow2;
    if n > 0 { KraftShares(counts, size, m, n - 1); }
  }

  /** The sizes are code lengths themselves. */
  lemma SizesAreLengths(counts: seq<nat>, size: seq<nat>, m: nat)
    requires |counts| == |size| && forall s :: 0 <= s < |size| ==> (size[s] > 0 <==> counts[s] > 0) && size[s] <= m
    requires KraftAll(size, m, |size|) == Pow2(m)
    ensures Lengths(counts, size, m)
  {
    hide Pow2, KraftAll, Total, Shares;
    KraftShares(counts, size, m, |size|);
  }

  lemma ReducesEnds(counts: seq<nat>, size: seq<nat>, freq: seq<nat>)
    requires Reduces(counts, size, freq)
    ensures Cheapest(counts, size)
  {
    hide Shares, Total, Pow2;
  }

  /** The body of the loop: join the branch of c2 to that of c1. */
  method MergeTwo(freq: array<nat>, codesize: array<nat>, others: array<int>, c1: nat, c2: nat,
                  ghost owner: seq<int>, ghost chains: seq<seq<nat>>, ghost merges: nat)
    requires freq.Length == codesize.Length == others.Length == SLOTS && freq != codesize
    requires Forest(freq[..], codesize[..], others[..], owner, chains, merges) && |owner| == |chains| == SLOTS
    requires c1 < SLOTS && c2 < SLOTS && c1 != c2 && freq[c1] > 0 && freq[c2] > 0
    modifies freq, codesize, others
    ensures freq[..] == Merged(old(freq[..]), c1, c2) && codesize[..] == Size'(old(codesize[..]), owner, c1, c2)
    ensures Forest(freq[..], codesize[..], others[..], Owner'(owner, c1, c2), chains[c1 := chains[c1] + chains[c2]], merges + 1)
  {
    hide Forest, Linked;
    ghost var f, z, o := freq[..], codesize[..], others[..];
    ForestBranches(f, z, o, owner, chains, merges, c1, c2);
    ForestMerge(f, z, o, owner, chains, merges, c1, c2);
    freq[c1] := freq[c1] + freq[c2];
    freq[c2] := 0;
    var last := Deepen(codesize, others, c1, chains[c1]);
    others[last] := c2;
    assert others[..] == o[last := c2];
    last := Deepen(codesize, others, c2, chains[c2]);
    ghost var z' := Size'(z, owner, c1, c2);
    forall s: nat | s < SLOTS ensures codesize[s] == z'[s] {
      assert owner[s] == c1 || owner[s] != c1;
    }
    assert codesize[..] == z';
    assert freq[..] == Merged(f, c1, c2);
  }

  /** The merging loop: given at least one real symbol, it gives every used symbol a code size and no
      other, the sizes are those of a complete binary code, and no code lengths for these symbols need fewer
      bits for all of them together. */
  method HuffmanSizes(freq: array<nat>) returns (codesize: array<nat>)
    requires freq.Length == SLOTS && freq[PSEUDO] == 1 && Total(freq[..], SLOTS) <= MAX_COUNT
    requires exists s :: 0 <= s < PSEUDO && freq[s] > 0
    modifies freq
    ensures fresh(codesize) && codesize.Length == SLOTS
    ensures forall s :: 0 <= s < SLOTS ==> (codesize[s] > 0 <==> old(freq[s]) > 0) && codesize[s] <= 256
    ensures KraftAll(codesize[..], 256, SLOTS) == Pow2(256)
    ensures Lengths(old(freq[..]), codesize[..], 256) && Cheapest(old(freq[..]), codesize[..])
  {
    hide Forest, Kraft, KraftAll, Live, Total, Pow2, Linked, Merged, Owner', Size', Tallied, Reduces, Cheapest;
    codesize := new nat[SLOTS](_ => 0);
    var others := new int[SLOTS](_ => -1);
    ghost var s1 :| 0 <= s1 < PSEUDO && freq[s1] > 0;
    ghost var owner: seq<int>, chains: seq<seq<nat>>, merges: nat := Alone(freq[..]), seq(SLOTS, i => [i]), 0;
    ForestStarts(freq[..], codesize[..], others[..]);
    ghost var counts := freq[..];
    ReducesStarts(counts, codesize[..]);
    while true
      invariant Forest(freq[..], codesize[..], others[..], owner, chains, merges)
      invariant |owner| == |chains| == SLOTS && Total(freq[..], SLOTS) <= MAX_COUNT
      invariant forall s :: 0 <= s < SLOTS ==> (owner[s] >= 0 <==> old(freq[s]) > 0)
      invariant Tallied(counts, freq[..], owner) && Reduces(counts, codesize[..], freq[..])
      decreases Live(freq[..], SLOTS)
    {
      var c1 := Smallest(freq, -1);
      var c2 := Smallest(freq, c1);
      ForestUse(freq[..], codesize[..], others[..], owner, chains, merges, s1);
      AllSmall(freq[..]);
      if c2 < 0 {
        ForestEnds(freq[..], codesize[..], others[..], owner, chains, merges, c1, s1, PSEUDO);
        ReducesEnds(counts, codesize[..], freq[..]);
        SizesAreLengths(counts, codesize[..], 256);
        break;
      }
      MergedSums(freq[..], c1, c2, SLOTS);
      ReducesMerge(counts, codesize[..], freq[..], owner, c1, c2);
      MergeTwo(freq, codesize, others, c1, c2, owner, chains, merges);
      OwnerSigns(owner, c1, c2);
      chains := chains[c1 := chains[c1] + chains[c2]];
      owner := Owner'(owner, c1, c2);
      merges := merges + 1;
    }
  }

  lemma OwnerSigns(owner: seq<int>, c1: nat, c2: nat)
    ensures forall s :: 0 <= s < |owner| ==> (Owner'(owner, c1, c2)[s] >= 0 <==> owner[s] >= 0)
  {
  }

  // ---------- lengths ----------

  /** The codes of length up to n, as a number of n-bit strings. */
  function Weight(bits: seq<nat>, n: nat): nat
    requires n < |bits|
  {
    if n == 0 then 0 else 2 * Weight(bits, n - 1) + bits[n]
  }

  /** How many codes of length 1 up to n there are. */
  function Codes(bits: seq<nat>, n: nat): nat
    requires n < |bits|
  {
    if n == 0 then 0 else Codes(bits, n - 1) + bits[n]
  }

  /** How many of the first n symbols have a code. */
  function Used(size: seq<nat>, n: nat): nat
    requires n <= |size|
  {
    if n == 0 then 0 else Used(size, n - 1) + if size[n - 1] > 0 then 1 else 0
  }

  /** One more code of length l. */
  lemma {:induction false} WeightMore(bits: seq<nat>, l: nat, n: nat)
    requires 1 <= l < |bits| && n < |bits|
    ensures Weight(bits[l := bits[l] + 1], n) == Weight(bits, n) + if l <= n then Pow2(n - l) else 0
    ensures Codes(bits[l := bits[l] + 1], n) == Codes(bits, n) + if l <= n then 1 else 0
  {
    if n > 0 {
      WeightMore(bits, l, n - 1);
      if l < n { Pow2Double(n - 1 - l); }
    }
  }

  /** One less. */
  lemma WeightLess(bits: seq<nat>, l: nat, n: nat)
    requires 1 <= l < |bits| && n < |bits| && bits[l] > 0
    ensures Weight(bits, n) == Weight(bits[l := bits[l] - 1], n) + if l <= n then Pow2(n - l) else 0
    ensures Codes(bits, n) == Codes(bits[l := bits[l] - 1], n) + if l <= n then 1 else 0
  {
    hide Weight, Codes, Pow2;
    var b := bits[l := bits[l] - 1];
    WeightMore(b, l, n);
    assert b[l := b[l] + 1] == bits;
  }

  lemma {:induction false} CodesBound(bits: seq<nat>, l: nat, n: nat)
    requires 1 <= l <= n < |bits|
    ensures bits[l] <= Codes(bits, n)
  {
    if l < n { CodesBound(bits, l, n - 1); }
  }

  lemma {:induction false} NoLengths(bits: seq<nat>, n: nat)
    requires n < |bits| && forall l :: 1 <= l <= n ==> bits[l] == 0
    ensures Weight(bits, n) == 0 && Codes(bits, n) == 0
  {
    if n > 0 { NoLengths(bits, n - 1); }
  }

  lemma {:induction false} KraftScale(size: seq<nat>, n: nat)
    requires n <= |size| && forall s :: 0 <= s < |size| ==> size[s] <= MAX_CLEN
    ensures KraftAll(size, 256, n) == Shl(KraftAll(size, MAX_CLEN, n), 224)
  {
    hide Pow2, Shl;
    if n == 0 {
      ShlPow2(224);
    } else {
      KraftScale(size, n - 1);
      ShlAdd(KraftAll(size, MAX_CLEN, n - 1), if size[n - 1] > 0 then Pow2(MAX_CLEN - size[n - 1]) else 0, 224);
      ShlPow2(224);
      ShlPow2(MAX_CLEN - size[n - 1]);
      ShlPow2(256 - size[n - 1]);
      ShlShl(1, MAX_CLEN - size[n - 1], 224);
    }
  }

  /** Complete with room to 256 bits, complete with room to 32. */
  lemma KraftShort(size: seq<nat>)
    requires |size| == SLOTS && KraftAll(size, 256, SLOTS) == Pow2(256) && forall s :: 0 <= s < |size| ==> size[s] <= MAX_CLEN
    ensures KraftAll(size, MAX_CLEN, SLOTS) == Pow2(MAX_CLEN)
  {
    hide Pow2, Shl, KraftAll, Shr, Low;
    KraftScale(size, SLOTS);
    ShlPow2(MAX_CLEN);
    ShlPow2(256);
    ShlShl(1, MAX_CLEN, 224);
    JoinAt(KraftAll(size, MAX_CLEN, SLOTS), 0, 224);
    JoinAt(Pow2(MAX_CLEN), 0, 224);
  }

  lemma {:induction false} UsedMono(size: seq<nat>, m: nat, n: nat)
    requires m <= n <= |size|
    ensures Used(size, m) <= Used(size, n)
    decreases n
  {
    if m < n { UsedMono(size, m, n - 1); }
  }

  /** Counting the symbols of each code length. */
  method CountLengths(codesize: array<nat>) returns (ok: bool, bits: array<byte>)
    requires codesize.Length == SLOTS && Used(codesize[..], SLOTS) <= 255
    ensures ok <==> forall s :: 0 <= s < SLOTS ==> codesize[s] <= MAX_CLEN
    ensures fresh(bits) && bits.Length == MAX_CLEN + 1
    ensures ok ==> bits[0] == 0 && Weight(bits[..], MAX_CLEN) == KraftAll(codesize[..], MAX_CLEN, SLOTS)
    ensures ok ==> Codes(bits[..], MAX_CLEN) == Used(codesize[..], SLOTS)
    ensures ok ==> forall l :: 1 <= l <= MAX_CLEN ==> bits[l] == Exactly(codesize[..], SLOTS, l)
  {
    hide Pow2, Weight, Codes, Exactly;
    ExactlyNone(codesize[..]);
    bits := new byte[MAX_CLEN + 1](_ => 0);
    ok := true;
    NoLengths(bits[..], MAX_CLEN);
    for i := 0 to SLOTS
      invariant ok && forall s :: 0 <= s < i ==> codesize[s] <= MAX_CLEN
      invariant bits[0] == 0 && Weight(bits[..], MAX_CLEN) == KraftAll(codesize[..], MAX_CLEN, i)
      invariant Codes(bits[..], MAX_CLEN) == Used(codesize[..], i)
      invariant forall l :: 1 <= l <= MAX_CLEN ==> bits[l] == Exactly(codesize[..], i, l)
    {
      ExactlyNext(codesize[..], i);
      if codesize[i] != 0 {
        if codesize[i] > MAX_CLEN { return false, bits; }
        ghost var was := bits[..];
        UsedMono(codesize[..], i + 1, SLOTS);
        CodesBound(was, codesize[i], MAX_CLEN);
        WeightMore(was, codesize[i], MAX_CLEN);
        bits[codesize[i]] := bits[codesize[i]] + 1;
        assert bits[..] == was[codesize[i] := was[codesize[i]] + 1];
      }
    }
  }

  // ---------- sixteen bits ----------

  /** Codes of length up to i, complete, none longer, and no more than 255. */
  ghost predicate Complete(bits: seq<nat>, i: nat, total: nat) {
    && |bits| == MAX_CLEN + 1 && i <= MAX_CLEN && bits[0] == 0
    && Weight(bits, i) == Pow2(i) && Codes(bits, i) == total <= 255
    && forall l :: i < l <= MAX_CLEN ==> bits[l] == 0
  }

  /** The codes of the greatest length come in pairs, and a shorter length than the next is in use. */
  lemma LongestPairs(bits: seq<nat>, i: nat, total: nat)
    requires Complete(bits, i, total) && 16 < i && bits[i] > 0
    ensures bits[i] >= 2 && exists j :: 1 <= j <= i - 2 && bits[j] > 0
  {
    hide Pow2;
    Pow2Double(i - 1);
    if forall j :: 1 <= j <= i - 2 ==> bits[j] == 0 {
      NoLengths(bits, i - 2);
      assert Weight(bits, i - 1) == bits[i - 1] == Codes(bits, i - 1);
      Pow2Mono(16, i);
      Pow2Values();
    }
  }

  /** An unused length can be left out. */
  lemma Shorten(bits: seq<nat>, i: nat, total: nat)
    requires Complete(bits, i, total) && i > 0 && bits[i] == 0
    ensures Complete(bits, i - 1, total)
  {
    hide Pow2;
    Pow2Double(i - 1);
  }

  /** The bits[] after one adjustment. */
  function Adjusted(bits: seq<nat>, i: nat, j: nat): seq<nat>
    requires 1 <= j <= i - 2 && i < |bits| && bits[i] >= 2 && bits[j] > 0
  {
    var b1 := bits[i := bits[i] - 2];
    var b2 := b1[i - 1 := b1[i - 1] + 1];
    var b3 := b2[j + 1 := b2[j + 1] + 2];
    b3[j := b3[j] - 1]
  }

  /** Moving a pair up keeps the code complete and the number of codes. */
  lemma AdjustedComplete(bits: seq<nat>, i: nat, j: nat, total: nat)
    requires Complete(bits, i, total) && 1 <= j <= i - 2 && bits[i] >= 2 && bits[j] > 0
    ensures Complete(Adjusted(bits, i, j), i, total)
  {
    hide Pow2, Weight, Codes;
    var a1 := bits[i := bits[i] - 1];
    var b1 := a1[i := a1[i] - 1];
    var b2 := b1[i - 1 := b1[i - 1] + 1];
    var a3 := b2[j + 1 := b2[j + 1] + 1];
    var b3 := a3[j + 1 := a3[j + 1] + 1];
    var b4 := b3[j := b3[j] - 1];
    assert b4 == Adjusted(bits, i, j);
    WeightLess(bits, i, i);
    WeightLess(a1, i, i);
    WeightMore(b1, i - 1, i);
    WeightMore(b2, j + 1, i);
    WeightMore(a3, j + 1, i);
    WeightLess(b3, j, i);
    Pow2Double(i - j - 1);
    Pow2Double(0);
  }

  /** The longest length in use up to j. */
  function LongestUpTo(bits: seq<nat>, j: nat): (m: nat)
    requires j < |bits| && exists l :: 1 <= l <= j && bits[l] > 0
    ensures 1 <= m <= j && bits[m] > 0 && forall l :: m < l <= j ==> bits[l] == 0
  {
    if bits[j] > 0 then j else LongestUpTo(bits, j - 1)
  }

  lemma LongestIs(bits: seq<nat>, j: nat, m: nat)
    requires 1 <= m <= j < |bits| && bits[m] > 0 && forall l :: m < l <= j ==> bits[l] == 0
    ensures LongestUpTo(bits, j) == m
  {
  }

  /** The counts once no code is longer than 16 bits.  As long as there are codes of the greatest length i, two of
      them go: one to the prefix they share, the other beside a code of the greatest length below i - 1. */
  ghost function Limited(bits: seq<nat>, i: nat, total: nat): (r: seq<nat>)
    requires Complete(bits, i, total)
    ensures Complete(r, if i > 16 then 16 else i, total)
    decreases i, if i < |bits| then bits[i] else 0
  {
    if i <= 16 then bits
    else if bits[i] == 0 then
      Shorten(bits, i, total);
      Limited(bits, i - 1, total)
    else
      LongestPairs(bits, i, total);
      var j := LongestUpTo(bits, i - 2);
      AdjustedComplete(bits, i, j, total);
      Limited(Adjusted(bits, i, j), i, total)
  }

  lemma {:induction false} LimitedShort(bits: seq<nat>, i: nat, total: nat)
    requires Complete(bits, i, total) && forall l :: 16 < l < |bits| ==> bits[l] == 0
    ensures Limited(bits, i, total) == bits
    decreases i
  {
    hide Weight, Codes, Pow2, Adjusted;
    if i > 16 {
      Shorten(bits, i, total);
      LimitedShort(bits, i - 1, total);
    }
  }

  lemma LimitedStep(bits: seq<nat>, i: nat, j: nat, total: nat)
    requires Complete(bits, i, total) && 16 < i && bits[i] > 0
    requires 1 <= j <= i - 2 && bits[j] > 0 && forall l :: j < l <= i - 2 ==> bits[l] == 0
    ensures bits[i] >= 2 && Complete(Adjusted(bits, i, j), i, total)
    ensures Limited(bits, i, total) == Limited(Adjusted(bits, i, j), i, total)
  {
    hide Weight, Codes, Pow2, Adjusted;
    LongestPairs(bits, i, total);
    AdjustedComplete(bits, i, j, total);
    LongestIs(bits, i - 2, j);
  }

  /** The loops that bring every code length down to 16. */
  method LimitLengths(bits: array<byte>, ghost total: nat)
    requires bits.Length == MAX_CLEN + 1 && Complete(bits[..], MAX_CLEN, total)
    modifies bits
    ensures Complete(bits[..], 16, total) && bits[..] == Limited(old(bits[..]), MAX_CLEN, total)
  {
    hide Complete, Weight, Codes, Pow2, Limited, Adjusted;
    var i := MAX_CLEN;
    ghost var goal := Limited(bits[..], MAX_CLEN, total);
    while i > 16
      invariant 16 <= i <= MAX_CLEN && Complete(bits[..], i, total) && Limited(bits[..], i, total) == goal
    {
      while bits[i] > 0
        invariant Complete(bits[..], i, total) && Limited(bits[..], i, total) == goal
      {
        ghost var was := bits[..];
        LongestPairs(was, i, total);
        var j := i - 2;
        ghost var j0 :| 1 <= j0 <= i - 2 && bits[j0] > 0;
        while bits[j] == 0
          invariant j0 <= j <= i - 2 && forall l :: j < l <= i - 2 ==> bits[l] == 0
          decreases j
        {
          j := j - 1;
        }
        LimitedStep(was, i, j, total);
        AdjustedBytes(was, i, j, total);
        AdjustedIs(was, i, j);
        bits[i] := bits[i] - 2;
        bits[i - 1] := bits[i - 1] + 1;
        bits[j + 1] := bits[j + 1] + 2;
        bits[j] := bits[j] - 1;
        assert bits[..] == Adjusted(was, i, j);
      }
      Shorten(bits[..], i, total);
      LimitedLess(bits[..], i, total);
      i := i - 1;
    }
    LimitedDone(bits[..], total);
  }

  lemma AdjustedIs(bits: seq<nat>, i: nat, j: nat)
    requires 1 <= j <= i - 2 && i < |bits| && bits[i] >= 2 && bits[j] > 0
    ensures var b1 := bits[i := bits[i] - 2];
      var b2 := b1[i - 1 := b1[i - 1] + 1];
      var b3 := b2[j + 1 := b2[j + 1] + 2];
      Adjusted(bits, i, j) == b3[j := b3[j] - 1]
  {
  }

  lemma LimitedLess(bits: seq<nat>, i: nat, total: nat)
    requires Complete(bits, i, total) && 16 < i && bits[i] == 0 && Complete(bits, i - 1, total)
    ensures Limited(bits, i, total) == Limited(bits, i - 1, total)
  {
    hide Complete, Weight, Codes, Pow2, Adjusted;
  }

  lemma LimitedDone(bits: seq<nat>, total: nat)
    requires Complete(bits, 16, total)
    ensures Limited(bits, 16, total) == bits
  {
  }

  /** Nothing wraps around. */
  lemma AdjustedBytes(bits: seq<nat>, i: nat, j: nat, total: nat)
    requires Complete(bits, i, total) && 1 <= j <= i - 2 && bits[i] >= 2 && bits[j] > 0
    ensures bits[i - 1] + 1 < 256 && Adjusted(bits, i, j)[i - 1] < 256 && bits[j + 1] + 2 < 256
    ensures forall l :: 0 <= l <= MAX_CLEN ==> Adjusted(bits, i, j)[l] < 256
  {
    hide Pow2, Weight;
    AdjustedComplete(bits, i, j, total);
    TwoLengths(bits, i - 1, i, i);
    TwoLengths(bits, j + 1, i, i);
    var b := Adjusted(bits, i, j);
    forall l | 0 <= l <= MAX_CLEN ensures b[l] < 256 {
      if 1 <= l <= i { CodesBound(b, l, i); }
    }
  }

  lemma {:induction false} TwoLengths(bits: seq<nat>, l: nat, m: nat, n: nat)
    requires 1 <= l < m <= n < |bits|
    ensures bits[l] + bits[m] <= Codes(bits, n)
  {
    if m < n { TwoLengths(bits, l, m, n - 1); } else { CodesBound(bits, l, n - 1); }
  }

  /** What is left when one code of the greatest length is given up. */
  ghost predicate Roomy(bits: seq<nat>, total: nat) {
    && |bits| == MAX_CLEN + 1 && bits[0] == 0 && Codes(bits, 16) == total
    && (forall l :: 16 < l <= MAX_CLEN ==> bits[l] == 0)
    && forall l {:trigger bits[l]} :: 1 <= l <= 16 ==> Weight(bits, l) < Pow2(l)
  }

  /** Leaving room at length n leaves room at every shorter length. */
  lemma {:induction false} RoomBelow(bits: seq<nat>, l: nat, n: nat)
    requires 1 <= l <= n < |bits| && Weight(bits, n) < Pow2(n)
    ensures Weight(bits, l) < Pow2(l)
    decreases n
  {
    if l < n { RoomBelow(bits, l, n - 1); }
  }

  /** ... and at every greater length that is not used. */
  lemma {:induction false} RoomAbove(bits: seq<nat>, m: nat, l: nat)
    requires 1 <= m <= l < |bits| && Weight(bits, m) < Pow2(m) && forall k :: m < k <= l ==> bits[k] == 0
    ensures Weight(bits, l) < Pow2(l)
    decreases l
  {
    if m < l { RoomAbove(bits, m, l - 1); }
  }

  /** One code of the greatest length less. */
  ghost predicate Thinned(was: seq<nat>, bits: seq<nat>) {
    |was| == |bits| == MAX_CLEN + 1 &&
    exists m :: 1 <= m <= 16 && was[m] > 0 && (forall l :: m < l <= 16 ==> was[l] == 0) && bits == was[m := was[m] - 1]
  }

  /** Removing the pseudo-symbol from the greatest length in use. */
  method DropPseudo(bits: array<byte>, ghost total: nat)
    requires bits.Length == MAX_CLEN + 1 && Complete(bits[..], 16, total)
    modifies bits
    ensures total > 0 && Roomy(bits[..], total - 1) && Thinned(old(bits[..]), bits[..])
  {
    hide Weight, Codes, Pow2, Complete, Roomy;
    ghost var was := bits[..];
    var i := 16;
    LongestUsed(was, i, total);
    while bits[i] == 0
      invariant 1 <= i <= 16 && Complete(was, i, total) && bits[..] == was && forall l :: i < l <= 16 ==> was[l] == 0
      decreases i
    {
      Shorten(was, i, total);
      i := i - 1;
      LongestUsed(was, i, total);
    }
    Dropped(was, i, total);
    bits[i] := bits[i] - 1;
    assert bits[..] == was[i := was[i] - 1];
  }

  lemma LongestUsed(bits: seq<nat>, i: nat, total: nat)
    requires Complete(bits, i, total)
    ensures 1 <= i
  {
  }

  lemma Dropped(bits: seq<nat>, m: nat, total: nat)
    requires Complete(bits, m, total) && 1 <= m <= 16 && bits[m] > 0
    ensures total > 0 && Roomy(bits[m := bits[m] - 1], total - 1)
  {
    hide Weight, Codes, Pow2;
    var b := bits[m := bits[m] - 1];
    WeightLess(bits, m, m);
    WeightLess(bits, m, 16);
    CodesUnused(bits, m, 16);
    NoShift();
    forall l | 1 <= l <= 16 ensures Weight(b, l) < Pow2(l) {
      if l <= m { RoomBelow(b, l, m); } else { RoomAbove(b, m, l); }
    }
  }

  lemma NoShift()
    ensures Pow2(0) == 1
  {
  }

  lemma {:induction false} CodesUnused(bits: seq<nat>, m: nat, n: nat)
    requires m <= n < |bits| && forall l :: m < l <= n ==> bits[l] == 0
    ensures Codes(bits, n) == Codes(bits, m)
    decreases n
  {
    if m < n { CodesUnused(bits, m, n - 1); }
  }

  // ---------- the list of symbols ----------

  /** How many of the first n symbols have codes of length 1 up to l. */
  function UpTo(size: seq<nat>, n: nat, l: nat): nat
    requires n <= |size|
  {
    if n == 0 then 0 else UpTo(size, n - 1, l) + if 1 <= size[n - 1] <= l then 1 else 0
  }

  /** ... of length l exactly. */
  function Exactly(size: seq<nat>, n: nat, l: nat): nat
    requires n <= |size|
  {
    if n == 0 then 0 else Exactly(size, n - 1, l) + if size[n - 1] == l then 1 else 0
  }

  lemma {:induction false} UpToNext(size: seq<nat>, n: nat, l: nat)
    requires n <= |size| && l > 0
    ensures UpTo(size, n, l) == UpTo(size, n, l - 1) + Exactly(size, n, l)
  {
    if n > 0 { UpToNext(size, n - 1, l); }
  }

  lemma {:induction false} UpToNone(size: seq<nat>, n: nat)
    requires n <= |size|
    ensures UpTo(size, n, 0) == 0
  {
    if n > 0 { UpToNone(size, n - 1); }
  }

  lemma {:induction false} UpToUsed(size: seq<nat>, n: nat, l: nat)
    requires n <= |size|
    ensures UpTo(size, n, l) <= Used(size, n)
    ensures (forall s :: 0 <= s < |size| ==> size[s] <= l) ==> UpTo(size, n, l) == Used(size, n)
  {
    if n > 0 { UpToUsed(size, n - 1, l); }
  }

  lemma {:induction false} ExactlyMono(size: seq<nat>, m: nat, n: nat, l: nat)
    requires m <= n <= |size|
    ensures Exactly(size, m, l) <= Exactly(size, n, l)
    decreases n
  {
    if m < n { ExactlyMono(size, m, n - 1, l); }
  }

  /** Reached by the double loop before (i, j). */
  predicate Reached(size: seq<nat>, i: nat, j: nat, s: nat)
    requires s < |size|
  {
    1 <= size[s] < i || (size[s] == i && s < j)
  }

  /** A symbol with a smaller size comes first, and of two with one size the smaller symbol. */
  predicate Sooner(size: seq<nat>, s: nat, s': nat)
    requires s < |size| && s' < |size|
  {
    size[s] < size[s'] || (size[s] == size[s'] && s < s')
  }

  /** The list when the double loop has come to (i, j), and where each symbol is in it. */
  ghost predicate Listing(size: seq<nat>, list: seq<byte>, place: seq<nat>, i: nat, j: nat) {
    && |size| == SLOTS && |place| == 256
    && (forall s: byte :: Reached(size, i, j, s) ==> place[s] < |list| && list[place[s]] == s)
    && (forall q :: 0 <= q < |list| ==> Reached(size, i, j, list[q]) && place[list[q]] == q)
    && (forall q :: 0 <= q < |list| ==> q < UpTo(size, PSEUDO, size[list[q]]))
    && forall q, q' :: 0 <= q < q' < |list| ==> Sooner(size, list[q], list[q'])
  }

  lemma ListingNext(size: seq<nat>, list: seq<byte>, place: seq<nat>, i: nat, j: nat)
    requires Listing(size, list, place, i, j) && 1 <= i && j < 256
    requires size[j] == i ==> |list| < UpTo(size, PSEUDO, i)
    ensures if size[j] == i then Listing(size, list + [j], place[j := |list|], i, j + 1)
            else Listing(size, list, place, i, j + 1)
  {
    hide UpTo;
  }

  lemma ListingRow(size: seq<nat>, list: seq<byte>, place: seq<nat>, i: nat)
    requires Listing(size, list, place, i, 256) && 1 <= i
    ensures Listing(size, list, place, i + 1, 0)
  {
    hide UpTo;
  }

  lemma ListingEnds(size: seq<nat>, list: seq<byte>, place: seq<nat>)
    requires Listing(size, list, place, MAX_CLEN + 1, 0) && forall s :: 0 <= s < SLOTS ==> size[s] <= MAX_CLEN
    ensures forall q :: 0 <= q < |list| ==> size[list[q]] > 0
    ensures forall q, q' :: 0 <= q < q' < |list| ==> list[q] != list[q']
    ensures forall s: byte :: size[s] > 0 ==> exists q :: 0 <= q < |list| && list[q] == s
  {
    hide UpTo;
    forall s: byte | size[s] > 0 ensures exists q :: 0 <= q < |list| && list[q] == s {
      assert Reached(size, MAX_CLEN + 1, 0, s);
      assert list[place[s]] == s;
    }
  }

  /** The symbols with codes, shortest first and in ascending order for one size; each once. */
  method ListSymbols(codesize: array<nat>, huffval: array<byte>) returns (p: nat)
    requires codesize.Length == SLOTS && huffval.Length == 256 && Used(codesize[..], PSEUDO) <= 255
    requires forall s :: 0 <= s < SLOTS ==> codesize[s] <= MAX_CLEN
    modifies huffval
    ensures p == Used(codesize[..], PSEUDO)
    ensures forall q :: 0 <= q < p ==> codesize[huffval[q]] > 0
    ensures forall q, q' :: 0 <= q < q' < p ==> huffval[q] != huffval[q'] && Sooner(codesize[..], huffval[q], huffval[q'])
    ensures forall q :: 0 <= q < p ==> q < UpTo(codesize[..], PSEUDO, codesize[huffval[q]])
    ensures forall s: byte :: codesize[s] > 0 ==> exists q :: 0 <= q < p && huffval[q] == s
  {
    hide Used, UpTo, Exactly, Listing;
    ghost var size := codesize[..];
    ghost var place: seq<nat> := seq(256, _ => 0);
    p := 0;
    UpToNone(size, PSEUDO);
    UpToUsed(size, PSEUDO, 0);
    ListingStarts(size, huffval[..0], place);
    for i := 1 to MAX_CLEN + 1
      invariant |place| == 256 && p == UpTo(size, PSEUDO, i - 1) <= 255 && Listing(size, huffval[..p], place, i, 0)
    {
      UpToNext(size, PSEUDO, i);
      UpToUsed(size, PSEUDO, i);
      ExactlyNone(size);
      for j := 0 to 256
        invariant p == UpTo(size, PSEUDO, i - 1) + Exactly(size, j, i) <= 255
        invariant |place| == 256 && Listing(size, huffval[..p], place, i, j)
      {
        ExactlyMono(size, j + 1, PSEUDO, i);
        ExactlyNext(size, j);
        ListingNext(size, huffval[..p], place, i, j);
        if codesize[j] == i {
          ghost var was := huffval[..p];
          huffval[p] := j;
          place := place[j := p];
          p := p + 1;
          assert huffval[..p] == was + [j];
        }
      }
      ListingRow(size, huffval[..p], place, i);
    }
    UpToUsed(size, PSEUDO, MAX_CLEN);
    ghost var list := huffval[..p];
    ListingEnds(size, list, place);
    ListingMeans(size, list, place);
    assert forall q :: 0 <= q < p ==> huffval[q] == list[q];
  }

  lemma ListingStarts(size: seq<nat>, list: seq<byte>, place: seq<nat>)
    requires |size| == SLOTS && list == [] && |place| == 256
    ensures Listing(size, list, place, 1, 0)
  {
  }

  lemma ListingMeans(size: seq<nat>, list: seq<byte>, place: seq<nat>)
    requires Listing(size, list, place, MAX_CLEN + 1, 0)
    ensures forall q, q' :: 0 <= q < q' < |list| ==> Sooner(size, list[q], list[q'])
    ensures forall q :: 0 <= q < |list| ==> q < UpTo(size, PSEUDO, size[list[q]])
  {
  }

  lemma ExactlyNone(size: seq<nat>)
    ensures forall l :: Exactly(size, 0, l) == 0
  {
  }

  lemma ExactlyNext(size: seq<nat>, n: nat)
    requires n < |size|
    ensures forall l :: Exactly(size, n + 1, l) == Exactly(size, n, l) + if size[n] == l then 1 else 0
  {
  }

  // ---------- the whole procedure ----------

  lemma {:induction false} WeightIsLimit(bits: seq<nat>, h: Table, l: nat)
    requires |bits| == MAX_CLEN + 1 && h.bits == bits[..17] && bits[0] == 0 && l <= 16
    ensures Before(h, l + 1) == Codes(bits, l)
    ensures l >= 1 ==> Limit(h, l) == Weight(bits, l)
  {
    if l > 0 { WeightIsLimit(bits, h, l - 1); }
  }

  /** The table is one that jpeg_make_c_derived_tbl accepts. */
  lemma RoomyLegal(bits: seq<nat>, h: Table, total: nat)
    requires Roomy(bits, total) && total <= 256 && h.bits == bits[..17] && WellTyped(h)
    ensures Count(h) == total && Legal(h)
  {
    hide Pow2, Weight, Codes;
    WeightIsLimit(bits, h, 16);
    forall l | 1 <= l <= 16 ensures Limit(h, l) < Pow2(l) {
      WeightIsLimit(bits, h, l);
      assert bits[l] == bits[l];
    }
  }

  lemma {:induction false} UsedLive(size: seq<nat>, freq: seq<nat>, n: nat)
    requires n <= |size| == |freq| && forall s :: 0 <= s < |size| ==> (size[s] > 0 <==> freq[s] > 0)
    ensures Used(size, n) == Live(freq, n)
  {
    if n > 0 { UsedLive(size, freq, n - 1); }
  }

  lemma {:induction false} SameBelow(a: seq<nat>, b: seq<nat>, n: nat)
    requires n <= |a| && n <= |b| && forall i :: 0 <= i < n ==> a[i] == b[i]
    ensures Total(a, n) == Total(b, n) && Live(a, n) == Live(b, n)
  {
    if n > 0 { SameBelow(a, b, n - 1); }
  }

  /** bits[] before any length is limited. */
  function Tally(sizes: seq<nat>): (bits: seq<nat>)
    requires |sizes| == SLOTS
    ensures |bits| == MAX_CLEN + 1 && bits[0] == 0
    ensures forall l :: 1 <= l <= MAX_CLEN ==> bits[l] == Exactly(sizes, SLOTS, l)
  {
    seq(MAX_CLEN + 1, l requires 0 <= l <= MAX_CLEN => if l == 0 then 0 else Exactly(sizes, SLOTS, l))
  }

  /** The table that belongs to the sizes: the symbols in order of their size and then of their value, and the
      counts of the sizes limited to 16, less one code of the greatest length. */
  ghost predicate Follows(sizes: seq<nat>, h: Table) {
    && |sizes| == SLOTS && WellTyped(h) && Count(h) <= 256
    && (forall q :: 0 <= q < Count(h) ==> sizes[h.huffval[q]] > 0)
    && (forall q, q' :: 0 <= q < q' < Count(h) ==> Sooner(sizes, h.huffval[q], h.huffval[q']))
    && (forall q :: 0 <= q < Count(h) ==> q < UpTo(sizes, PSEUDO, sizes[h.huffval[q]]))
    && var total := Used(sizes, SLOTS);
    && Complete(Tally(sizes), MAX_CLEN, total)
    && exists bits :: Thinned(Limited(Tally(sizes), MAX_CLEN, total), bits) && h.bits == bits[..17]
  }

  lemma Ordered(sizes: seq<nat>, h: Table, q: nat, q': nat)
    requires Follows(sizes, h) && q < Count(h) && q' < Count(h)
    ensures q <= q' ==> sizes[h.huffval[q]] <= sizes[h.huffval[q']]
  {
    hide UpTo, Complete, Limited, Thinned, Used, Count, Tally;
  }

  /** A smaller size never gets a longer code. */
  lemma ShorterFirst(sizes: seq<nat>, h: Table, q: nat, q': nat)
    requires Follows(sizes, h) && q < Count(h) && q' < Count(h) && sizes[h.huffval[q]] < sizes[h.huffval[q']]
    ensures q < q' && LenAt(h, q) <= LenAt(h, q')
  {
    hide UpTo, Complete, Limited, Thinned, Used, Count, Tally;
    Ordered(sizes, h, q', q);
    LenOrder(h, q, q');
  }

  lemma LenOrder(h: Table, q: nat, q': nat)
    requires |h.bits| == 17 && q <= q' < Count(h)
    ensures LenAt(h, q) <= LenAt(h, q')
  {
    hide Before;
    if LenAt(h, q') < LenAt(h, q) { BeforeMono(h, LenAt(h, q') + 1, LenAt(h, q)); }
  }

  predicate Greatest(sizes: seq<nat>, m: nat) {
    (exists s :: 0 <= s < |sizes| && sizes[s] == m) && forall s :: 0 <= s < |sizes| ==> sizes[s] <= m
  }

  /** When no size is over 16, the lengths are the sizes, but that one code of the greatest length is not used. */
  lemma LengthsAreSizes(sizes: seq<nat>, h: Table)
    requires Follows(sizes, h) && forall s :: 0 <= s < SLOTS ==> sizes[s] <= 16
    ensures exists m :: 1 <= m <= 16 && Greatest(sizes, m) && forall l :: 1 <= l <= 16 ==> h.bits[l] == Exactly(sizes, SLOTS, l) - if l == m then 1 else 0
  {
    hide Exactly, UpTo, Used, Count, Complete, Limited, Sooner, WellTyped, Greatest;
    var t := Tally(sizes);
    forall l | 16 < l <= MAX_CLEN ensures t[l] == 0 { NoneOfSize(sizes, SLOTS, l); }
    LimitedShort(t, MAX_CLEN, Used(sizes, SLOTS));
    var bits :| Thinned(t, bits) && h.bits == bits[..17];
    var m :| 1 <= m <= 16 && t[m] > 0 && (forall l :: m < l <= 16 ==> t[l] == 0) && bits == t[m := t[m] - 1];
    assert forall l :: 1 <= l <= 16 ==> h.bits[l] == bits[l];
    GreatestSize(sizes, m);
  }

  lemma GreatestSize(sizes: seq<nat>, m: nat)
    requires |sizes| == SLOTS && 1 <= m <= 16 && Exactly(sizes, SLOTS, m) > 0
    requires forall s :: 0 <= s < SLOTS ==> sizes[s] <= 16
    requires forall l :: m < l <= 16 ==> Exactly(sizes, SLOTS, l) == 0
    ensures Greatest(sizes, m)
  {
    hide Exactly;
    if forall s :: 0 <= s < SLOTS ==> sizes[s] != m { NoneOfSize(sizes, SLOTS, m); }
    forall s | 0 <= s < SLOTS ensures sizes[s] <= m { SomeOfSize(sizes, SLOTS, s); }
  }

  lemma {:induction false} SomeOfSize(sizes: seq<nat>, n: nat, s: nat)
    requires s < n <= |sizes|
    ensures Exactly(sizes, n, sizes[s]) > 0
  {
    if s < n - 1 { SomeOfSize(sizes, n - 1, s); }
  }

  /** ... so the code of a symbol is never longer than its size. */
  lemma LengthsFit(sizes: seq<nat>, h: Table, q: nat)
    requires Follows(sizes, h) && Legal(h) && q < Count(h) == Used(sizes, SLOTS) - 1 && forall s :: 0 <= s < SLOTS ==> sizes[s] <= 16
    ensures LenAt(h, q) <= sizes[h.huffval[q]]
  {
    hide Exactly, UpTo, Used, Complete, Limited, Legal, Before, Codes, Weight, Pow2, Sooner;
    var t, l := Tally(sizes), sizes[h.huffval[q]];
    forall l | 16 < l <= MAX_CLEN ensures t[l] == 0 { NoneOfSize(sizes, SLOTS, l); }
    LimitedShort(t, MAX_CLEN, Used(sizes, SLOTS));
    var bits :| Thinned(t, bits) && h.bits == bits[..17];
    var m :| 1 <= m <= 16 && t[m] > 0 && (forall l :: m < l <= 16 ==> t[l] == 0) && bits == t[m := t[m] - 1];
    WeightIsLimit(bits, h, l);
    WeightLess(t, m, l);
    TallyCodes(sizes, l);
    UpToBoth(sizes, l);
    GreatestSize(sizes, m);
    UpToUsed(sizes, SLOTS, l);
    if LenAt(h, q) > l { BeforeMono(h, l + 1, LenAt(h, q)); }
  }

  lemma {:induction false} TallyCodes(sizes: seq<nat>, l: nat)
    requires |sizes| == SLOTS && l <= MAX_CLEN
    ensures Codes(Tally(sizes), l) == UpTo(sizes, SLOTS, l)
  {
    hide UpTo, Exactly;
    UpToNone(sizes, SLOTS);
    if l > 0 {
      TallyCodes(sizes, l - 1);
      UpToNext(sizes, SLOTS, l);
    }
  }

  lemma UpToBoth(sizes: seq<nat>, l: nat)
    requires |sizes| == SLOTS
    ensures UpTo(sizes, PSEUDO, l) <= UpTo(sizes, SLOTS, l)
  {
  }

  lemma {:induction false} NoneOfSize(sizes: seq<nat>, n: nat, l: nat)
    requires n <= |sizes| && forall s :: 0 <= s < n ==> sizes[s] != l
    ensures Exactly(sizes, n, l) == 0
  {
    if n > 0 { NoneOfSize(sizes, n - 1, l); }
  }

  /** From the counts of the sizes to the table. */
  method MakeTable(codesize: array<nat>, bits: array<byte>, huffval: array<byte>) returns (h: Table)
    requires codesize.Length == SLOTS && huffval.Length == 256 && bits.Length == MAX_CLEN + 1 && bits != huffval
    requires forall s :: 0 <= s < SLOTS ==> codesize[s] <= MAX_CLEN
    requires Used(codesize[..], SLOTS) <= 255 && codesize[PSEUDO] > 0
    requires bits[..] == Tally(codesize[..]) && Weight(bits[..], MAX_CLEN) == Pow2(MAX_CLEN) && Codes(bits[..], MAX_CLEN) == Used(codesize[..], SLOTS)
    modifies bits, huffval
    ensures EncoderLegal(h, false) && Follows(codesize[..], h) && Count(h) == Used(codesize[..], PSEUDO)
    ensures forall s :: 0 <= s < PSEUDO ==> (Listed(h, s) <==> codesize[s] > 0)
    ensures forall q, q' :: 0 <= q < q' < Count(h) ==> codesize[h.huffval[q]] <= codesize[h.huffval[q']]
    ensures (forall s :: 16 <= s < PSEUDO ==> codesize[s] == 0) ==> EncoderLegal(h, true)
  {
    hide Pow2, Weight, Codes, Used, UpTo, Complete, Roomy, Limited, Follows, Thinned, Listed, Legal, Tally, Before, EncoderLegal, Count;
    ghost var sizes := codesize[..];
    ghost var total := Used(sizes, SLOTS);
    UsedLast(sizes);
    CompleteStarts(bits[..], total);
    LimitLengths(bits, total);
    DropPseudo(bits, total);
    var p := ListSymbols(codesize, huffval);
    h := Table(bits[..17], huffval[..]);
    RoomyLegal(bits[..], h, total - 1);
    SymbolsListed(h, sizes, p);
    SizesFollowed(sizes, h, bits[..]);
  }

  /** jpeg_gen_optimal_table.  The sizes before they are limited cost least of all code lengths for the symbols
      counted and the pseudo-symbol.  Unless a code would be longer than 32 bits, the result is the table that
      belongs to these sizes; the encoder's and the decoder's table builders accept it, and its symbols are
      exactly those that were counted. */
  method GenOptimalTable(freq: array<nat>, huffval: array<byte>) returns (r: Option<Table>, ghost sizes: seq<nat>)
    requires freq.Length == SLOTS && huffval.Length == 256
    requires Total(freq[..], PSEUDO) < MAX_COUNT && Live(freq[..], PSEUDO) <= 254
    requires exists s :: 0 <= s < PSEUDO && freq[s] > 0
    modifies freq, huffval
    ensures |sizes| == SLOTS && (r.None? <==> exists s :: 0 <= s < SLOTS && sizes[s] > MAX_CLEN)
    ensures KraftAll(sizes, 256, SLOTS) == Pow2(256) && forall s :: 0 <= s < PSEUDO ==> (sizes[s] > 0 <==> old(freq[s]) > 0)
    ensures Lengths(old(freq[..])[PSEUDO := 1], sizes, 256) && Cheapest(old(freq[..])[PSEUDO := 1], sizes)
    ensures r.Some? ==> EncoderLegal(r.value, false) && Follows(sizes, r.value)
    ensures r.Some? ==> forall s :: 0 <= s < PSEUDO ==> (Listed(r.value, s) <==> old(freq[s]) > 0)
    ensures r.Some? ==> forall q, q' :: 0 <= q < q' < Count(r.value) ==> sizes[r.value.huffval[q]] <= sizes[r.value.huffval[q']]
    ensures r.Some? && (forall s :: 16 <= s < PSEUDO ==> old(freq[s]) == 0) ==> EncoderLegal(r.value, true)
  {
    hide Pow2, Weight, Codes, Total, Live, Used, UpTo, KraftAll, Complete, Roomy, Lengths, Cheapest, Limited, Follows, Thinned;
    ghost var counts := freq[..];
    freq[PSEUDO] := 1;
    SameBelow(counts, freq[..], PSEUDO);
    TotalLast(freq[..]);
    ghost var marked := freq[..];
    assert marked == counts[PSEUDO := 1];
    var codesize := HuffmanSizes(freq);
    sizes := codesize[..];
    UsedLive(sizes, marked, SLOTS);
    UsedLive(sizes, marked, PSEUDO);
    UsedLast(sizes);
    var ok, bits := CountLengths(codesize);
    if !ok { return None, sizes; }
    KraftShort(sizes);
    assert bits[..] == Tally(sizes);
    var h := MakeTable(codesize, bits, huffval);
    r := Some(h);
  }

  lemma SizesFollowed(sizes: seq<nat>, h: Table, bits: seq<nat>)
    requires |sizes| == SLOTS && WellTyped(h) && Count(h) <= 256
    requires forall q :: 0 <= q < Count(h) ==> sizes[h.huffval[q]] > 0 && q < UpTo(sizes, PSEUDO, sizes[h.huffval[q]])
    requires forall q, q' :: 0 <= q < q' < Count(h) ==> Sooner(sizes, h.huffval[q], h.huffval[q'])
    requires Complete(Tally(sizes), MAX_CLEN, Used(sizes, SLOTS))
    requires Thinned(Limited(Tally(sizes), MAX_CLEN, Used(sizes, SLOTS)), bits) && h.bits == bits[..17]
    ensures Follows(sizes, h)
    ensures forall q, q' :: 0 <= q < q' < Count(h) ==> sizes[h.huffval[q]] <= sizes[h.huffval[q']]
  {
    hide Complete, Limited, Thinned, Used, UpTo, Count;
  }

  lemma CompleteStarts(bits: seq<nat>, total: nat)
    requires |bits| == MAX_CLEN + 1 && bits[0] == 0 && Weight(bits, MAX_CLEN) == Pow2(MAX_CLEN) && Codes(bits, MAX_CLEN) == total <= 255
    ensures Complete(bits, MAX_CLEN, total)
  {
  }

  lemma TotalLast(freq: seq<nat>)
    requires |freq| == SLOTS
    ensures Total(freq, SLOTS) == Total(freq, PSEUDO) + freq[PSEUDO]
  {
  }

  lemma UsedLast(size: seq<nat>)
    requires |size| == SLOTS
    ensures Used(size, SLOTS) == Used(size, PSEUDO) + if size[PSEUDO] > 0 then 1 else 0
  {
  }

  lemma SymbolsListed(h: Table, sizes: seq<nat>, p: nat)
    requires WellTyped(h) && Legal(h) && Count(h) == p && |sizes| == SLOTS && p <= 255
    requires forall q :: 0 <= q < p ==> sizes[h.huffval[q]] > 0
    requires forall q, q' :: 0 <= q < q' < p ==> h.huffval[q] != h.huffval[q']
    requires forall s: byte :: sizes[s] > 0 ==> exists q :: 0 <= q < p && h.huffval[q] == s
    ensures EncoderLegal(h, false) && forall s :: 0 <= s < PSEUDO ==> (Listed(h, s) <==> sizes[s] > 0)
    ensures (forall s :: 16 <= s < PSEUDO ==> sizes[s] == 0) ==> EncoderLegal(h, true)
  {
    hide Legal;
    forall s | 0 <= s < PSEUDO ensures Listed(h, s) <==> sizes[s] > 0 {
      if sizes[s] > 0 {
        var b: byte := s;
        assert exists q :: 0 <= q < p && h.huffval[q] == b;
      }
    }
  }
}
