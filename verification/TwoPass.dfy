// finish_pass_gather (jchuff.c): from the statistics pass by way of jpeg_gen_optimal_table to a coding pass
// that cannot fail for lack of a code.
module TwoPass {
  import opened Wrappers
  import opened Bits
  import opened HuffmanTable
  import opened DerivedTables
  import opened Coefficients
  import opened AcBlocks
  import opened McuScan
  import opened HuffmanCost
  import opened OptimalTable
  import opened Statistics

  /** The counters of some words. */
  ghost function CountsOf(ws: seq<Word>): (counts: seq<nat>)
    ensures |counts| == SLOTS
  {
    seq(SLOTS, s requires 0 <= s < SLOTS => Times(ws, s))
  }

  lemma {:induction false} TotalBump(a: seq<nat>, b: seq<nat>, k: nat, n: nat)
    requires n <= |a| == |b| && forall i :: 0 <= i < |a| ==> b[i] == a[i] + if i == k then 1 else 0
    ensures Total(b, n) == Total(a, n) + if k < n then 1 else 0
    decreases n, k
  {
    if n > 0 { TotalBump(a, b, k, n - 1); }
  }

  lemma {:induction false} NoTotal(a: seq<nat>, n: nat)
    requires n <= |a| && forall i :: 0 <= i < |a| ==> a[i] == 0
    ensures Total(a, n) == 0
  {
    if n > 0 { NoTotal(a, n - 1); }
  }

  /** There are no more counts than words. */
  lemma {:induction false} TotalWords(ws: seq<Word>, n: nat)
    requires n <= SLOTS
    ensures Total(CountsOf(ws), n) <= |ws|
    decreases |ws|
  {
    hide Total;
    if ws == [] {
      NoTotal(CountsOf(ws), n);
    } else {
      TotalWords(ws[..|ws| - 1], n);
      TotalBump(CountsOf(ws[..|ws| - 1]), CountsOf(ws), ws[|ws| - 1].sym, n);
    }
  }

  lemma {:induction false} NeverCounted(which: Which, ws: seq<Word>, s: nat)
    requires Symbols(which, ws) && (s >= 256 || s % 16 > MAX_COEF_BITS + 1 || (which.Dc? && s >= 16))
    ensures Times(ws, s) == 0
    decreases |ws|
  {
    if ws != [] { NeverCounted(which, ws[..|ws| - 1], s); }
  }

  lemma {:induction false} LiveBound(freq: seq<nat>, i: nat, j: nat, n: nat)
    requires n <= |freq| && i < j < |freq| && freq[i] == freq[j] == 0
    ensures Live(freq, n) + (if i < n then 1 else 0) + (if j < n then 1 else 0) <= n
    decreases n, i, j
  {
    if n > 0 { LiveBound(freq, i, j, n - 1); }
  }

  /** The counts of a scan are such as jpeg_gen_optimal_table can take. */
  lemma CountsFit(which: Which, ws: seq<Word>)
    requires Symbols(which, ws) && 0 < |ws| < MAX_COUNT
    ensures Total(CountsOf(ws), PSEUDO) < MAX_COUNT && Live(CountsOf(ws), PSEUDO) <= 254
    ensures exists s :: 0 <= s < PSEUDO && CountsOf(ws)[s] > 0
    ensures which.Dc? ==> forall s :: 16 <= s < PSEUDO ==> CountsOf(ws)[s] == 0
  {
    hide Total, Live, Times;
    TotalWords(ws, PSEUDO);
    NeverCounted(which, ws, 12);
    NeverCounted(which, ws, 13);
    LiveBound(CountsOf(ws), 12, 13, PSEUDO);
    OccursTimes(ws, 0);
    assert CountsOf(ws)[ws[0].sym] > 0;
    if which.Dc? {
      forall s | 16 <= s < PSEUDO ensures CountsOf(ws)[s] == 0 { NeverCounted(which, ws, s); }
    }
  }

  // ---------- the words of a slot ----------

  predicate HasBlock(segs: seq<seq<Mcu>>, ci: component) {
    exists i, j :: 0 <= i < |segs| && 0 <= j < |Flat(segs[i])| && Flat(segs[i])[j].ci == ci
  }

  /** Every component of the scan has a block, and no other component has. */
  predicate Present(segs: seq<seq<Mcu>>, n: nat) {
    forall ci: component :: HasBlock(segs, ci) <==> ci < n
  }

  predicate Unused(slot: slots, items: seq<Item>, t: nat) {
    forall j :: 0 <= j < |items| ==> slot[items[j].ci] != t
  }

  lemma {:induction false} AcNotEmpty(z: Block, k: nat)
    requires 1 < k <= 64
    ensures |AcWords(z, k).0| + AcWords(z, k).1 > 0
    decreases k
  {
    hide NBits, Bin, Zrls;
  }

  lemma {:induction false} ItemsNotEmpty(which: Which, slot: slots, items: seq<Item>, j: nat)
    requires j < |items|
    ensures WordsOf(which, slot, items, slot[items[j].ci]) != []
    decreases |items|
  {
    hide AcWords, NBits, Bin;
    var n := |items| - 1;
    if j < n {
      ItemsNotEmpty(which, slot, items[..n], j);
    } else {
      AcNotEmpty(items[n].z, 64);
    }
  }

  lemma {:induction false} ScanNotEmpty(which: Which, slot: slots, segs: seq<seq<Mcu>>, i: nat, j: nat)
    requires i < |segs| && j < |Flat(segs[i])|
    ensures ScanWords(which, slot, segs, slot[Flat(segs[i])[j].ci]) != []
    decreases |segs|
  {
    hide WordsOf, Flat;
    var n := |segs| - 1;
    if i < n {
      ScanNotEmpty(which, slot, segs[..n], i, j);
    } else {
      ItemsNotEmpty(which, slot, Flat(segs[n]), j);
    }
  }

  lemma {:induction false} ItemsEmpty(which: Which, slot: slots, items: seq<Item>, t: nat)
    requires Unused(slot, items, t)
    ensures WordsOf(which, slot, items, t) == []
    decreases |items|
  {
    hide ItemWords;
    if items != [] { ItemsEmpty(which, slot, items[..|items| - 1], t); }
  }

  /** A slot that no component of the scan uses. */
  lemma {:induction false} ScanEmpty(which: Which, slot: slots, segs: seq<seq<Mcu>>, t: nat)
    requires forall i :: 0 <= i < |segs| ==> Unused(slot, Flat(segs[i]), t)
    ensures ScanWords(which, slot, segs, t) == []
    decreases |segs|
  {
    hide WordsOf, Flat, Unused;
    var n := |segs| - 1;
    if n >= 0 {
      ScanEmpty(which, slot, segs[..n], t);
      ItemsEmpty(which, slot, Flat(segs[n]), t);
    }
  }

  // ---------- the tables ----------

  /** A table slot that has not been filled. */
  const NO_CODES := Table(seq(17, _ => 0), seq(256, _ => 0))

  lemma {:induction false} NoLimits(l: nat)
    requires 1 <= l <= 17
    ensures Before(NO_CODES, l) == 0 && First(NO_CODES, l) == 0
    decreases l
  {
    if l > 1 { NoLimits(l - 1); }
  }

  lemma NoCodesLegal()
    ensures EncoderLegal(NO_CODES, true)
  {
    hide Before, First, Pow2;
    NoLimits(17);
    forall l | 1 <= l <= 16 ensures Limit(NO_CODES, l) < Pow2(l) {
      NoLimits(l);
      Pow2Positive(l);
    }
  }

  /** Code lengths for the words and the pseudo-symbol, none of which cost less. */
  ghost predicate Best(ws: seq<Word>, sizes: seq<nat>) {
    Lengths(CountsOf(ws)[PSEUDO := 1], sizes, 256) && Cheapest(CountsOf(ws)[PSEUDO := 1], sizes)
  }

  /** A table made for the words. */
  ghost predicate Made(h: Table, ws: seq<Word>) {
    exists sizes :: Best(ws, sizes) && Follows(sizes, h)
  }

  /** Code lengths for the words that would not do. */
  ghost predicate TooLong(ws: seq<Word>, sizes: seq<nat>) {
    |sizes| == SLOTS && Best(ws, sizes) && exists s :: 0 <= s < SLOTS && sizes[s] > MAX_CLEN
  }

  /** The table in a slot, after the pass has come by it or not. */
  ghost predicate Fitted(h: Table, which: Which, ws: seq<Word>, did: bool) {
    && EncoderLegal(h, which.Dc?)
    && (did ==> Made(h, ws) && forall s :: 0 <= s < 256 ==> (Listed(h, s) <==> Times(ws, s) > 0))
  }

  /** One call of jpeg_gen_optimal_table. */
  method GenSlot(counts: array2<nat>, t: nat, ghost which: Which, ghost ws: seq<Word>) returns (r: Option<Table>, ghost sizes: seq<nat>)
    requires counts.Length0 == 4 && counts.Length1 == SLOTS && t < 4
    requires Symbols(which, ws) && 0 < |ws| < MAX_COUNT && forall s :: 0 <= s < SLOTS ==> counts[t, s] == Times(ws, s)
    ensures r.Some? ==> Fitted(r.value, which, ws, true)
    ensures r.None? ==> TooLong(ws, sizes)
  {
    hide Times, Total, Live, Legal, Listed, KraftAll, Pow2, Lengths, Cheapest, Follows;
    CountsFit(which, ws);
    var freq := new nat[SLOTS](s requires 0 <= s < SLOTS reads counts => counts[t, s]);
    var huffval := new byte[256](_ => 0);
    assert freq[..] == CountsOf(ws);
    ghost var f := CountsOf(ws);
    ghost var s :| 0 <= s < PSEUDO && f[s] > 0;
    assert freq[s] > 0;
    r, sizes := GenOptimalTable(freq, huffval);
    assert Best(ws, sizes);
  }

  /** All slots once the pass has come by all components. */
  ghost predicate AllFitted(tables: seq<Table>, which: Which, slot: slots, segs: seq<seq<Mcu>>, did: seq<bool>) {
    && |tables| == |did| == 4
    && forall t :: 0 <= t < 4 ==> Fitted(tables[t], which, ScanWords(which, slot, segs, t), did[t])
  }

  /** A slot that no component of the scan has called for has no words. */
  lemma NeverUsed(which: Which, slot: slots, segs: seq<seq<Mcu>>, n: nat, t: nat)
    requires Present(segs, n) && forall ci: component :: ci < n ==> slot[ci] != t
    ensures ScanWords(which, slot, segs, t) == []
  {
    hide ScanWords, Flat, HasBlock;
    forall i | 0 <= i < |segs| ensures Unused(slot, Flat(segs[i]), t) {
      forall j | 0 <= j < |Flat(segs[i])| ensures slot[Flat(segs[i])[j].ci] != t {
        assert HasBlock(segs, Flat(segs[i])[j].ci) by { BlockThere(segs, i, j); }
      }
    }
    ScanEmpty(which, slot, segs, t);
  }

  lemma BlockThere(segs: seq<seq<Mcu>>, i: nat, j: nat)
    requires i < |segs| && j < |Flat(segs[i])|
    ensures HasBlock(segs, Flat(segs[i])[j].ci)
  {
  }

  /** A table with a code for every word. */
  ghost predicate Adequate(h: Table, which: Which, ws: seq<Word>) {
    && EncoderLegal(h, which.Dc?) && (forall s :: 0 <= s < 256 && Times(ws, s) > 0 ==> Listed(h, s))
    && (ws != [] ==> Made(h, ws))
  }

  lemma AllListedThen(tables: seq<Table>, which: Which, slot: slots, segs: seq<seq<Mcu>>, did: seq<bool>, n: nat)
    requires AllFitted(tables, which, slot, segs, did) && Present(segs, n)
    requires forall ci: component :: ci < n ==> did[slot[ci]]
    ensures forall t :: 0 <= t < 4 ==> Adequate(tables[t], which, ScanWords(which, slot, segs, t))
  {
    hide Present, ScanWords, Times, Listed, Legal, Made;
    forall t | 0 <= t < 4 ensures Adequate(tables[t], which, ScanWords(which, slot, segs, t)) {
      assert Fitted(tables[t], which, ScanWords(which, slot, segs, t), did[t]);
      if !did[t] {
        NeverUsed(which, slot, segs, n, t);
        forall s | 0 <= s < 256 ensures Times([], s) == 0 { NoTimes(s); }
      }
    }
  }

  /** The counters at the end of the pass. */
  lemma CountedAll(counts: array2<nat>, which: Which, slot: slots, past: seq<seq<Mcu>>, now: seq<Mcu>)
    requires counts.Length0 == 4 && counts.Length1 == SLOTS && RowCounts(counts, which, slot, past, Flat(now))
    ensures forall t, s :: 0 <= t < 4 && 0 <= s < SLOTS ==> counts[t, s] == Times(ScanWords(which, slot, past + [now], t), s)
  {
    hide Times, WordsOf;
    assert (past + [now])[..|past|] == past;
    forall t, s | 0 <= t < 4 && 0 <= s < SLOTS ensures counts[t, s] == Times(ScanWords(which, slot, past + [now], t), s) {
      TimesAppend(ScanWords(which, slot, past, t), WordsOf(which, slot, Flat(now), t), s);
    }
  }

  /** One kind of table for all components of the scan. */
  method GenTables(counts: array2<nat>, slot: slots, n: nat, ghost which: Which, ghost segs: seq<seq<Mcu>>)
    returns (ok: bool, tables: seq<Table>, ghost sizes: seq<nat>)
    requires counts.Length0 == 4 && counts.Length1 == SLOTS && n <= MAX_COMPS_IN_SCAN && Present(segs, n)
    requires forall t, s :: 0 <= t < 4 && 0 <= s < SLOTS ==> counts[t, s] == Times(ScanWords(which, slot, segs, t), s)
    requires forall i :: 0 <= i < |segs| ==> InRange(Flat(segs[i]))
    requires forall t :: 0 <= t < 4 ==> |ScanWords(which, slot, segs, t)| < MAX_COUNT
    ensures ok ==> |tables| == 4 && forall t :: 0 <= t < 4 ==> Adequate(tables[t], which, ScanWords(which, slot, segs, t))
    ensures !ok ==> exists t :: 0 <= t < 4 && TooLong(ScanWords(which, slot, segs, t), sizes)
  {
    hide Times, ScanWords, InRange, EncoderLegal, Listed, Flat, HasBlock, Present, Made, TooLong;
    var did: seq<bool> := [false, false, false, false];
    NoCodesLegal();
    NoCodesLegalAc();
    ok, tables, sizes := true, [NO_CODES, NO_CODES, NO_CODES, NO_CODES], [];
    for ci := 0 to n
      invariant ok && AllFitted(tables, which, slot, segs, did) && forall i :: 0 <= i < ci ==> did[slot[i]]
    {
      var t := slot[ci];
      if !did[t] {
        ScanSymbols(which, slot, segs, t);
        SlotHasWords(which, slot, segs, n, ci);
        var r;
        r, sizes := GenSlot(counts, t, which, ScanWords(which, slot, segs, t));
        if r.None? { return false, tables, sizes; }
        tables, did := tables[t := r.value], did[t := true];
      }
    }
    AllListedThen(tables, which, slot, segs, did, n);
  }

  lemma NoCodesLegalAc()
    ensures EncoderLegal(NO_CODES, false)
  {
    NoCodesLegal();
  }

  lemma SlotHasWords(which: Which, slot: slots, segs: seq<seq<Mcu>>, n: nat, ci: component)
    requires Present(segs, n) && ci < n
    ensures ScanWords(which, slot, segs, slot[ci]) != []
  {
    hide ScanWords, Flat;
    assert HasBlock(segs, ci);
    var i, j :| 0 <= i < |segs| && 0 <= j < |Flat(segs[i])| && Flat(segs[i])[j].ci == ci;
    ScanNotEmpty(which, slot, segs, i, j);
  }

  /** The coder that the tables make, component by component. */
  function CoderOf(membership: seq<component>, dcSlot: slots, acSlot: slots, dcT: seq<Table>, acT: seq<Table>): Coder
    requires |dcT| == |acT| == 4
  {
    Coder(Whole, membership, seq(MAX_COMPS_IN_SCAN, i requires 0 <= i < MAX_COMPS_IN_SCAN => dcT[dcSlot[i]]),
          seq(MAX_COMPS_IN_SCAN, i requires 0 <= i < MAX_COMPS_IN_SCAN => acT[acSlot[i]]))
  }

  /** finish_pass_gather.  Unless some code would be longer than 32 bits, the tables made from the counts are
      legal, and the coding pass over the same segments never lacks a code. */
  method FinishPassGather(e: GatherEncoder, n: nat) returns (ok: bool, dcT: seq<Table>, acT: seq<Table>, ghost sizes: seq<nat>)
    requires e.Valid() && n <= MAX_COMPS_IN_SCAN && Present(e.past + [e.now], n)
    requires forall t :: 0 <= t < 4 ==> |ScanWords(Dc, e.dcSlot, e.past + [e.now], t)| < MAX_COUNT
    requires forall t :: 0 <= t < 4 ==> |ScanWords(Ac, e.acSlot, e.past + [e.now], t)| < MAX_COUNT
    ensures ok ==> |dcT| == |acT| == 4 && forall t :: 0 <= t < 4 ==> EncoderLegal(dcT[t], true) && EncoderLegal(acT[t], false)
    ensures ok ==>
      var c, segs := CoderOf(e.membership, e.dcSlot, e.acSlot, dcT, acT), e.past + [e.now];
      ValidCoder(c) && forall i :: 0 <= i < |segs| ==> SendAll(c, Flat(segs[i])).ok
    ensures ok ==> forall t :: 0 <= t < 4 ==>
      var d, a := ScanWords(Dc, e.dcSlot, e.past + [e.now], t), ScanWords(Ac, e.acSlot, e.past + [e.now], t);
      (d != [] ==> Made(dcT[t], d)) && (a != [] ==> Made(acT[t], a))
    ensures !ok ==> exists t :: 0 <= t < 4 && (TooLong(ScanWords(Dc, e.dcSlot, e.past + [e.now], t), sizes) ||
                                               TooLong(ScanWords(Ac, e.acSlot, e.past + [e.now], t), sizes))
  {
    hide Times, ScanWords, InRange, Listed, Flat, HasBlock, Present, Legal, RowCounts, SendAll, Made, TooLong;
    ghost var segs := e.past + [e.now];
    CountedAll(e.dcCounts, Dc, e.dcSlot, e.past, e.now);
    CountedAll(e.acCounts, Ac, e.acSlot, e.past, e.now);
    acT := [];
    ok, dcT, sizes := GenTables(e.dcCounts, e.dcSlot, n, Dc, segs);
    if !ok { return; }
    ok, acT, sizes := GenTables(e.acCounts, e.acSlot, n, Ac, segs);
    if !ok { return; }
    forall t | 0 <= t < 4 ensures Legal(dcT[t]) && SmallSymbols(dcT[t]) && Legal(acT[t]) {
      assert Adequate(dcT[t], Dc, ScanWords(Dc, e.dcSlot, segs, t));
      assert Adequate(acT[t], Ac, ScanWords(Ac, e.acSlot, segs, t));
    }
    StatisticsSuffice(CoderOf(e.membership, e.dcSlot, e.acSlot, dcT, acT), e.dcSlot, e.acSlot, dcT, acT, segs);
  }
}
