// The statistics pass (htest_one_block and encode_mcu_gather in jchuff.c): it counts exactly the
// symbols that the coding pass sends, so that tables made from the counts have every code needed.
module Statistics {
  import opened Bits
  import opened HuffmanTable
  import opened Coefficients
  import opened AcBlocks
  import opened AcEncoder
  import opened McuScan
  import opened McuEncoder
  import opened ZigzagOrder

  /** A symbol with the raw bits that follow its code. */
  datatype Word = Word(sym: nat, raw: seq<bool>)

  /** Words spelled out with a table. */
  ghost function Spell(h: Table, ws: seq<Word>): seq<bool>
    requires Legal(h)
  {
    if ws == [] then [] else Spell(h, ws[..|ws| - 1]) + (SymBits(h, ws[|ws| - 1].sym) + ws[|ws| - 1].raw)
  }

  ghost function Zrls(r: nat): seq<Word> {
    if r > 15 then [Word(ZRL, [])] + Zrls(r - 16) else []
  }

  /** The words for coefficients 1 up to k, and the zeros still waiting. */
  ghost function AcWords(z: Block, k: nat): (seq<Word>, nat)
    requires 1 <= k <= 64
  {
    if k == 1 then ([], 0)
    else
      var (ws, r) := AcWords(z, k - 1);
      var v := z[k - 1];
      if v == 0 then (ws, r + 1)
      else (ws + (Zrls(r) + [Word(16 * (r % 16) + NBits(Abs(v)), Bin(Complement(v), NBits(Abs(v))))]), 0)
  }

  /** All the AC words of a block. */
  ghost function BlockWords(z: Block): seq<Word> {
    var (ws, r) := AcWords(z, 64);
    ws + if r > 0 then [Word(0, [])] else []
  }

  ghost predicate AllListed(h: Table, ws: seq<Word>)
    requires Legal(h)
  {
    forall i :: 0 <= i < |ws| ==> Listed(h, ws[i].sym)
  }

  predicate AcInRange(z: Block, k: nat)
    requires k <= 64
  {
    forall i :: 1 <= i < k ==> NBits(Abs(z[i])) <= MAX_COEF_BITS
  }

  lemma {:induction false} SpellAppend(h: Table, a: seq<Word>, b: seq<Word>)
    requires Legal(h)
    ensures Spell(h, a + b) == Spell(h, a) + Spell(h, b)
    decreases |b|
  {
    hide Legal, SymBits;
    if b == [] {
      assert a + b == a;
    } else {
      assert (a + b)[..|a + b| - 1] == a + b[..|b| - 1];
      SpellAppend(h, a, b[..|b| - 1]);
    }
  }

  lemma SpellOne(h: Table, w: Word)
    requires Legal(h)
    ensures Spell(h, [w]) == SymBits(h, w.sym) + w.raw
  {
    hide Legal, SymBits;
    assert [w][..0] == [] && Spell(h, []) == [];
  }

  lemma {:induction false} SpellZrls(h: Table, r: nat)
    requires Legal(h)
    ensures Spell(h, Zrls(r)) == ZrlBits(h, r)
    ensures AllListed(h, Zrls(r)) <==> (r > 15 ==> Listed(h, ZRL))
  {
    hide Legal, SymBits, Listed;
    if r > 15 {
      SpellZrls(h, r - 16);
      SpellOne(h, Word(ZRL, []));
      SpellAppend(h, [Word(ZRL, [])], Zrls(r - 16));
      assert SymBits(h, ZRL) + [] == SymBits(h, ZRL);
      assert Zrls(r)[0].sym == ZRL;
    }
  }

  /** The coding pass sends these words and needs just their codes. */
  lemma {:induction false} WordsSent(h: Table, z: Block, k: nat)
    requires Legal(h) && 1 <= k <= 64
    ensures var l := FirstUpTo(h, z, 0, 1, k);
      && l.c == Spell(h, AcWords(z, k).0) && l.r == AcWords(z, k).1
      && (l.ok <==> AllListed(h, AcWords(z, k).0) && AcInRange(z, k))
  {
    hide FirstUpTo, FirstStep, AcWords, AcInRange, Spell, Legal, SymBits, Listed, NBits, ZrlBits, Zrls, Bin, Mag, Signed, AllListed;
    if k > 1 {
      var v := z[k - 1];
      var (ws, r) := AcWords(z, k - 1);
      WordsSent(h, z, k - 1);
      FirstNextStep(h, z, 0, 1, k - 1);
      WordsNext(z, k - 1);
      FirstStepIs(h, FirstUpTo(h, z, 0, 1, k - 1), v);
      if v != 0 {
        var w := Word(16 * (r % 16) + NBits(Abs(v)), Bin(Complement(v), NBits(Abs(v))));
        SpellZrls(h, r);
        SpellOne(h, w);
        SpellAppend(h, Zrls(r), [w]);
        SpellAppend(h, ws, Zrls(r) + [w]);
        ListedAppend(h, Zrls(r), [w]);
        ListedAppend(h, ws, Zrls(r) + [w]);
        ListedOne(h, w);
      }
      InRangeNext(z, k);
    } else {
      FirstNoStep(h, z, 0, 1);
      WordsNext(z, 1);
      ListedNone(h);
      SpellNone(h);
      InRangeNone(z);
    }
  }

  lemma SpellNone(h: Table)
    requires Legal(h)
    ensures Spell(h, []) == []
  {
  }

  lemma ListedNone(h: Table)
    requires Legal(h)
    ensures AllListed(h, [])
  {
  }

  lemma FirstStepIs(h: Table, l: Local, v: int)
    requires Legal(h)
    ensures v == 0 ==> FirstStep(h, l, v, 0) == l.(r := l.r + 1)
    ensures v != 0 ==>
      var n, l' := NBits(Abs(v)), FirstStep(h, l, v, 0);
      && l'.c == l.c + (ZrlBits(h, l.r) + (SymBits(h, 16 * (l.r % 16) + n) + Bin(Complement(v), n))) && l'.r == 0
      && (l'.ok <==> l.ok && (l.r > 15 ==> Listed(h, ZRL)) && Listed(h, 16 * (l.r % 16) + n) && n <= MAX_COEF_BITS)
  {
    hide Legal, SymBits, Listed, NBits, ZrlBits, Bin, Mag, Signed;
    PlainValue(v);
  }

  lemma ListedAppend(h: Table, a: seq<Word>, b: seq<Word>)
    requires Legal(h)
    ensures AllListed(h, a + b) <==> AllListed(h, a) && AllListed(h, b)
  {
    hide Legal, Listed;
    if AllListed(h, a + b) {
      forall i | 0 <= i < |a| ensures Listed(h, a[i].sym) { assert (a + b)[i] == a[i]; }
      forall i | 0 <= i < |b| ensures Listed(h, b[i].sym) { assert (a + b)[|a| + i] == b[i]; }
    }
  }

  lemma ListedOne(h: Table, w: Word)
    requires Legal(h)
    ensures AllListed(h, [w]) <==> Listed(h, w.sym)
  {
    hide Legal, Listed;
    assert [w][0] == w;
  }

  lemma InRangeNext(z: Block, k: nat)
    requires 1 < k <= 64
    ensures AcInRange(z, k) <==> AcInRange(z, k - 1) && NBits(Abs(z[k - 1])) <= MAX_COEF_BITS
    ensures z[k - 1] == 0 ==> NBits(Abs(z[k - 1])) <= MAX_COEF_BITS
  {
  }

  /** Coding an AC part sends the words of the block; it succeeds just if they all have codes and the
      values are in range. */
  lemma AcSends(h: Table, z: Block)
    requires Legal(h)
    ensures AcBits(h, z) == Spell(h, BlockWords(z))
    ensures AcOk(h, z) <==> AllListed(h, BlockWords(z)) && AcInRange(z, 64)
  {
    hide Legal, SymBits, Listed, NBits, FirstUpTo, AcWords;
    var (ws, r) := AcWords(z, 64);
    WordsSent(h, z, 64);
    if r > 0 {
      SpellOne(h, Word(0, []));
      SpellAppend(h, ws, [Word(0, [])]);
      ListedAppend(h, ws, [Word(0, [])]);
      ListedOne(h, Word(0, []));
      assert SymBits(h, 0) + [] == SymBits(h, 0);
    } else {
      assert ws + [] == ws && Spell(h, ws) + [] == Spell(h, ws);
    }
  }

  // ---------- counting ----------

  /** How often a symbol occurs. */
  function Times(ws: seq<Word>, s: nat): nat {
    if ws == [] then 0 else Times(ws[..|ws| - 1], s) + if ws[|ws| - 1].sym == s then 1 else 0
  }

  lemma {:induction false} TimesAppend(a: seq<Word>, b: seq<Word>, s: nat)
    ensures Times(a + b, s) == Times(a, s) + Times(b, s)
    decreases |b|
  {
    if b == [] {
      assert a + b == a;
    } else {
      assert (a + b)[..|a + b| - 1] == a + b[..|b| - 1];
      TimesAppend(a, b[..|b| - 1], s);
    }
  }

  lemma {:induction false} CountedListed(h: Table, which: Which, ws: seq<Word>)
    requires Legal(h) && forall s :: 0 <= s < 256 && Times(ws, s) > 0 ==> Listed(h, s)
    requires Symbols(which, ws)
    ensures AllListed(h, ws)
  {
    hide Legal, Listed, Times;
    forall i | 0 <= i < |ws| ensures Listed(h, ws[i].sym) { OccursTimes(ws, i); }
  }

  lemma {:induction false} OccursTimes(ws: seq<Word>, i: nat)
    requires i < |ws|
    ensures Times(ws, ws[i].sym) > 0
  {
    if i < |ws| - 1 { OccursTimes(ws[..|ws| - 1], i); }
  }

  /** Counters for the 257 symbols of each of the four table slots. */
  ghost predicate Counts(counts: array2<nat>, was: seq<seq<nat>>, t: nat, ws: seq<Word>)
    reads counts
    requires counts.Length0 == 4 && counts.Length1 == 257 && |was| == 4 && t < 4
    requires forall u :: 0 <= u < 4 ==> |was[u]| == 257
  {
    forall u, s :: 0 <= u < 4 && 0 <= s < 257 ==> counts[u, s] == was[u][s] + if u == t then Times(ws, s) else 0
  }

  ghost function Rows(counts: array2<nat>): (rows: seq<seq<nat>>)
    reads counts
    requires counts.Length0 == 4 && counts.Length1 == 257
    ensures |rows| == 4 && forall u :: 0 <= u < 4 ==> |rows[u]| == 257 && forall s :: 0 <= s < 257 ==> rows[u][s] == counts[u, s]
  {
    seq(4, u requires 0 <= u < 4 reads counts => seq(257, s requires 0 <= s < 257 reads counts => counts[u, s]))
  }

  /** counts[t][sym]++ */
  method CountOne(counts: array2<nat>, t: nat, sym: nat, ghost was: seq<seq<nat>>, ghost ws: seq<Word>, ghost raw: seq<bool>)
    requires counts.Length0 == 4 && counts.Length1 == 257 && |was| == 4 && t < 4 && sym < 257
    requires forall u :: 0 <= u < 4 ==> |was[u]| == 257
    requires Counts(counts, was, t, ws)
    modifies counts
    ensures Counts(counts, was, t, ws + [Word(sym, raw)])
  {
    assert (ws + [Word(sym, raw)])[..|ws|] == ws;
    counts[t, sym] := counts[t, sym] + 1;
  }

  lemma CountsNone(counts: array2<nat>, t: nat)
    requires counts.Length0 == 4 && counts.Length1 == 257 && t < 4
    ensures Counts(counts, Rows(counts), t, [])
  {
  }

  lemma WordsNext(z: Block, k: nat)
    requires 1 <= k < 64
    ensures AcWords(z, 1) == ([], 0)
    ensures var (ws, r) := AcWords(z, k);
      AcWords(z, k + 1) == if z[k] == 0 then (ws, r + 1)
        else (ws + (Zrls(r) + [Word(16 * (r % 16) + NBits(Abs(z[k])), Bin(Complement(z[k]), NBits(Abs(z[k]))))]), 0)
  {
    hide NBits, Bin, Zrls;
  }

  /** The run-length-16 codes before a nonzero coefficient. */
  method CountRuns(counts: array2<nat>, t: nat, r0: nat, ghost was: seq<seq<nat>>, ghost ws: seq<Word>) returns (r: nat)
    requires counts.Length0 == 4 && counts.Length1 == 257 && |was| == 4 && t < 4
    requires (forall u :: 0 <= u < 4 ==> |was[u]| == 257) && Counts(counts, was, t, ws)
    modifies counts
    ensures r == r0 % 16 && Counts(counts, was, t, ws + Zrls(r0))
  {
    hide Counts, Times;
    r := r0;
    ghost var now := ws;
    while r > 15
      invariant r % 16 == r0 % 16 && now + Zrls(r) == ws + Zrls(r0) && Counts(counts, was, t, now)
    {
      CountOne(counts, t, ZRL, was, now, []);
      assert now + ([Word(ZRL, [])] + Zrls(r - 16)) == now + [Word(ZRL, [])] + Zrls(r - 16);
      now := now + [Word(ZRL, [])];
      r := r - 16;
    }
    assert now + [] == now;
  }

  /** The AC part of htest_one_block. */
  method CountAc(block: array<int>, order: seq<nat>, counts: array2<nat>, t: nat) returns (ok: bool)
    requires NaturalOrder(order) && block.Length == 64 && counts.Length0 == 4 && counts.Length1 == 257 && t < 4
    modifies counts
    ensures var z := Zigzag(order, block[..]);
      (ok <==> AcInRange(z, 64)) && (ok ==> Counts(counts, old(Rows(counts)), t, BlockWords(z)))
  {
    hide Zigzag, AcWords, NBits, Times, Zrls, Counts, Bin, AcInRange, Rows;
    ghost var z, was := Zigzag(order, block[..]), Rows(counts);
    var r := 0;
    ok := true;
    ghost var ws: seq<Word> := [];
    CountsNone(counts, t);
    WordsNext(z, 1);
    assert AcInRange(z, 1) by { InRangeNone(z); }
    for k := 1 to 64
      invariant ok && AcWords(z, k) == (ws, r) && AcInRange(z, k) && Counts(counts, was, t, ws)
    {
      ZigzagAt(order, block[..], k);
      WordsNext(z, k);
      InRangeNext(z, k + 1);
      InRangeMono(z, k + 1);
      var temp := block[order[k]];
      if temp == 0 {
        r := r + 1;
      } else {
        ghost var run := Zrls(r);
        r := CountRuns(counts, t, r, was, ws);
        var nbits, temp2 := Category(temp);
        if nbits > MAX_COEF_BITS { return false; }
        ghost var raw := Bin(temp2, nbits);
        CountOne(counts, t, 16 * r + nbits, was, ws + run, raw);
        assert ws + run + [Word(16 * r + nbits, raw)] == ws + (run + [Word(16 * r + nbits, raw)]);
        ws := ws + (run + [Word(16 * r + nbits, raw)]);
        r := 0;
      }
    }
    if r > 0 {
      CountOne(counts, t, 0, was, ws, []);
    } else {
      assert ws + [] == ws;
    }
  }

  lemma InRangeNone(z: Block)
    ensures AcInRange(z, 1)
  {
  }

  lemma InRangeMono(z: Block, k: nat)
    requires k <= 64
    ensures AcInRange(z, 64) ==> AcInRange(z, k)
  {
  }

  // ---------- scans ----------

  datatype Which = Dc | Ac

  ghost function ItemWords(which: Which, last: int, z: Block): seq<Word> {
    match which
    case Dc => [Word(NBits(Abs(z[0] - last)), Bin(Complement(z[0] - last), NBits(Abs(z[0] - last))))]
    case Ac => BlockWords(z)
  }

  predicate ItemInRange(last: int, z: Block) {
    NBits(Abs(z[0] - last)) <= MAX_COEF_BITS + 1 && AcInRange(z, 64)
  }

  /** The predictions after some blocks. */
  function LastDc(items: seq<Item>): (last: seq<int>)
    ensures |last| == MAX_COMPS_IN_SCAN
  {
    if items == [] then NoLast else LastDc(items[..|items| - 1])[items[|items| - 1].ci := items[|items| - 1].z[0]]
  }

  /** Which table slot each component uses. */
  type slots = s: seq<nat> | |s| == MAX_COMPS_IN_SCAN && (forall i :: 0 <= i < |s| ==> s[i] < 4) witness [0, 0, 0, 0]

  /** The words that concern slot t. */
  ghost function WordsOf(which: Which, slot: slots, items: seq<Item>, t: nat): seq<Word> {
    if items == [] then []
    else
      var n := |items| - 1;
      WordsOf(which, slot, items[..n], t)
      + if slot[items[n].ci] == t then ItemWords(which, LastDc(items[..n])[items[n].ci], items[n].z) else []
  }

  ghost predicate InRange(items: seq<Item>) {
    items == [] || (InRange(items[..|items| - 1])
                    && ItemInRange(LastDc(items[..|items| - 1])[items[|items| - 1].ci], items[|items| - 1].z))
  }

  /** Tables by slot, as the coder sees them by component. */
  ghost predicate Slotted(c: Coder, dcSlot: slots, acSlot: slots, dcT: seq<Table>, acT: seq<Table>) {
    && ValidCoder(c) && c.mode.Whole? && |dcT| == |acT| == 4
    && (forall t :: 0 <= t < 4 ==> Legal(dcT[t]) && Legal(acT[t]))
    && forall i :: 0 <= i < MAX_COMPS_IN_SCAN ==> c.dc[i] == dcT[dcSlot[i]] && c.ac[i] == acT[acSlot[i]]
  }

  ghost predicate SlotsListed(dcSlot: slots, acSlot: slots, dcT: seq<Table>, acT: seq<Table>, items: seq<Item>)
    requires |dcT| == |acT| == 4 && forall t :: 0 <= t < 4 ==> Legal(dcT[t]) && Legal(acT[t])
  {
    forall t :: 0 <= t < 4 ==>
      AllListed(dcT[t], WordsOf(Dc, dcSlot, items, t)) && AllListed(acT[t], WordsOf(Ac, acSlot, items, t))
  }

  /** The coding pass succeeds just if every word has a code and every value is in range. */
  lemma {:induction false} SlotsSuffice(c: Coder, dcSlot: slots, acSlot: slots, dcT: seq<Table>, acT: seq<Table>, items: seq<Item>)
    requires Slotted(c, dcSlot, acSlot, dcT, acT)
    ensures SendAll(c, items).last == LastDc(items)
    ensures SendAll(c, items).ok <==> SlotsListed(dcSlot, acSlot, dcT, acT, items) && InRange(items)
  {
    hide Legal, Listed, AllListed, NBits, BlockBits, BlockOk, SmallSymbols, AcInRange, ItemWords, ItemInRange;
    if items == [] {
      forall t | 0 <= t < 4 ensures AllListed(dcT[t], []) && AllListed(acT[t], []) {
        ListedNone(dcT[t]);
        ListedNone(acT[t]);
      }
    } else {
      var n := |items| - 1;
      var x, last := items[n], LastDc(items[..n]);
      SlotsSuffice(c, dcSlot, acSlot, dcT, acT, items[..n]);
      ItemNeeds(c, x.ci, last[x.ci], x.z);
      forall t | 0 <= t < 4
        ensures AllListed(dcT[t], WordsOf(Dc, dcSlot, items, t)) <==>
          AllListed(dcT[t], WordsOf(Dc, dcSlot, items[..n], t)) && (dcSlot[x.ci] == t ==> AllListed(dcT[t], ItemWords(Dc, last[x.ci], x.z)))
        ensures AllListed(acT[t], WordsOf(Ac, acSlot, items, t)) <==>
          AllListed(acT[t], WordsOf(Ac, acSlot, items[..n], t)) && (acSlot[x.ci] == t ==> AllListed(acT[t], ItemWords(Ac, last[x.ci], x.z)))
      {
        ListedNone(dcT[t]);
        ListedNone(acT[t]);
        ListedAppend(dcT[t], WordsOf(Dc, dcSlot, items[..n], t), if dcSlot[x.ci] == t then ItemWords(Dc, last[x.ci], x.z) else []);
        ListedAppend(acT[t], WordsOf(Ac, acSlot, items[..n], t), if acSlot[x.ci] == t then ItemWords(Ac, last[x.ci], x.z) else []);
      }
    }
  }

  lemma ItemNeeds(c: Coder, ci: component, last: int, z: Block)
    requires ValidCoder(c) && c.mode.Whole?
    ensures BlockOk(c, ci, last, z) <==>
      AllListed(c.dc[ci], ItemWords(Dc, last, z)) && AllListed(c.ac[ci], ItemWords(Ac, last, z)) && ItemInRange(last, z)
    ensures BlockBits(c, ci, last, z) == Spell(c.dc[ci], ItemWords(Dc, last, z)) + Spell(c.ac[ci], ItemWords(Ac, last, z))
  {
    hide Legal, Listed, AllListed, NBits, SmallSymbols, AcInRange, AcOk, AcBits, SymBits, BlockWords, Spell;
    AcSends(c.ac[ci], z);
    var w := Word(NBits(Abs(z[0] - last)), Bin(Complement(z[0] - last), NBits(Abs(z[0] - last))));
    ListedOne(c.dc[ci], w);
    SpellOne(c.dc[ci], w);
  }

  /** The words of a whole scan, segment by segment. */
  ghost function ScanWords(which: Which, slot: slots, segs: seq<seq<Mcu>>, t: nat): seq<Word> {
    if segs == [] then []
    else ScanWords(which, slot, segs[..|segs| - 1], t) + WordsOf(which, slot, Flat(segs[|segs| - 1]), t)
  }

  /** Symbols that fit the counters: at most eleven bits follow, and a DC symbol has no run. */
  predicate Symbols(which: Which, ws: seq<Word>) {
    forall i :: 0 <= i < |ws| ==> ws[i].sym < 256 && ws[i].sym % 16 <= MAX_COEF_BITS + 1 && (which.Dc? ==> ws[i].sym < 16)
  }

  lemma RunAndCategory(r: nat, n: nat)
    requires n <= MAX_COEF_BITS
    ensures 16 * (r % 16) + n < 256 && (16 * (r % 16) + n) % 16 <= MAX_COEF_BITS + 1
  {
  }

  lemma {:induction false} AcSymbols(z: Block, k: nat)
    requires 1 <= k <= 64 && AcInRange(z, k)
    ensures Symbols(Ac, AcWords(z, k).0)
  {
    hide NBits, Bin, Zrls;
    if k > 1 {
      AcSymbols(z, k - 1);
      var r, n := AcWords(z, k - 1).1, NBits(Abs(z[k - 1]));
      ZrlSymbols(r);
      RunAndCategory(r, n);
    }
  }

  lemma {:induction false} ZrlSymbols(r: nat)
    ensures Symbols(Ac, Zrls(r))
  {
    if r > 15 { ZrlSymbols(r - 16); }
  }

  lemma {:induction false} ItemsSymbols(which: Which, slot: slots, items: seq<Item>, t: nat)
    requires InRange(items)
    ensures Symbols(which, WordsOf(which, slot, items, t))
  {
    hide NBits, Bin, AcWords, AcInRange;
    if items != [] {
      ItemsSymbols(which, slot, items[..|items| - 1], t);
      AcSymbols(items[|items| - 1].z, 64);
    }
  }

  lemma {:induction false} ScanSymbols(which: Which, slot: slots, segs: seq<seq<Mcu>>, t: nat)
    requires forall i :: 0 <= i < |segs| ==> InRange(Flat(segs[i]))
    ensures Symbols(which, ScanWords(which, slot, segs, t))
  {
    hide WordsOf, InRange, Flat;
    if segs != [] {
      ScanSymbols(which, slot, segs[..|segs| - 1], t);
      ItemsSymbols(which, slot, Flat(segs[|segs| - 1]), t);
    }
  }

  lemma {:induction false} SegmentListed(h: Table, which: Which, slot: slots, segs: seq<seq<Mcu>>, t: nat, i: nat)
    requires Legal(h) && i < |segs| && AllListed(h, ScanWords(which, slot, segs, t))
    ensures AllListed(h, WordsOf(which, slot, Flat(segs[i]), t))
    decreases |segs|
  {
    hide Legal, Listed, AllListed, WordsOf;
    var n := |segs| - 1;
    ListedAppend(h, ScanWords(which, slot, segs[..n], t), WordsOf(which, slot, Flat(segs[n]), t));
    if i < n { SegmentListed(h, which, slot, segs[..n], t, i); }
  }

  /** Tables that list every symbol counted never lack a code in the coding pass. */
  lemma StatisticsSuffice(c: Coder, dcSlot: slots, acSlot: slots, dcT: seq<Table>, acT: seq<Table>, segs: seq<seq<Mcu>>)
    requires Slotted(c, dcSlot, acSlot, dcT, acT)
    requires forall t, s :: 0 <= t < 4 && 0 <= s < 256 && Times(ScanWords(Dc, dcSlot, segs, t), s) > 0 ==> Listed(dcT[t], s)
    requires forall t, s :: 0 <= t < 4 && 0 <= s < 256 && Times(ScanWords(Ac, acSlot, segs, t), s) > 0 ==> Listed(acT[t], s)
    requires forall i :: 0 <= i < |segs| ==> InRange(Flat(segs[i]))
    ensures forall i :: 0 <= i < |segs| ==> SendAll(c, Flat(segs[i])).ok
  {
    hide Legal, Listed, AllListed, Times, ScanWords, WordsOf, InRange, SendAll, SmallSymbols, Flat;
    forall i | 0 <= i < |segs| ensures SendAll(c, Flat(segs[i])).ok {
      forall t | 0 <= t < 4
        ensures AllListed(dcT[t], WordsOf(Dc, dcSlot, Flat(segs[i]), t)) && AllListed(acT[t], WordsOf(Ac, acSlot, Flat(segs[i]), t))
      {
        ScanSymbols(Dc, dcSlot, segs, t);
        ScanSymbols(Ac, acSlot, segs, t);
        CountedListed(dcT[t], Dc, ScanWords(Dc, dcSlot, segs, t));
        CountedListed(acT[t], Ac, ScanWords(Ac, acSlot, segs, t));
        SegmentListed(dcT[t], Dc, dcSlot, segs, t, i);
        SegmentListed(acT[t], Ac, acSlot, segs, t, i);
      }
      SlotsSuffice(c, dcSlot, acSlot, dcT, acT, Flat(segs[i]));
    }
  }

  // ---------- the gathering encoder ----------

  /** One row of counters counts the words of slot t. */
  ghost predicate RowCounts(counts: array2<nat>, which: Which, slot: slots, segs: seq<seq<Mcu>>, more: seq<Item>)
    requires counts.Length0 == 4 && counts.Length1 == 257
    reads counts
  {
    forall t, s :: 0 <= t < 4 && 0 <= s < 257 ==>
      counts[t, s] == Times(ScanWords(which, slot, segs, t), s) + Times(WordsOf(which, slot, more, t), s)
  }

  lemma RowCountsNext(counts: array2<nat>, was: seq<seq<nat>>, which: Which, slot: slots, segs: seq<seq<Mcu>>, more: seq<Item>, x: Item)
    requires counts.Length0 == 4 && counts.Length1 == 257 && |was| == 4 && forall u :: 0 <= u < 4 ==> |was[u]| == 257
    requires forall t, s :: 0 <= t < 4 && 0 <= s < 257 ==>
      was[t][s] == Times(ScanWords(which, slot, segs, t), s) + Times(WordsOf(which, slot, more, t), s)
    requires Counts(counts, was, slot[x.ci], ItemWords(which, LastDc(more)[x.ci], x.z))
    ensures RowCounts(counts, which, slot, segs, more + [x])
  {
    hide Times, ItemWords, ScanWords;
    assert (more + [x])[..|more|] == more;
    forall t, s | 0 <= t < 4 && 0 <= s < 257
      ensures counts[t, s] == Times(ScanWords(which, slot, segs, t), s) + Times(WordsOf(which, slot, more + [x], t), s)
    {
      var ws := ItemWords(which, LastDc(more)[x.ci], x.z);
      TimesAppend(WordsOf(which, slot, more, t), ws, s);
      assert WordsOf(which, slot, more, t) + [] == WordsOf(which, slot, more, t);
    }
  }

  class GatherEncoder {
    const membership: seq<component>
    const dcSlot: slots
    const acSlot: slots
    const order: seq<nat>
    const restartInterval: nat
    const dcCounts: array2<nat>
    const acCounts: array2<nat>

    var lastDc: seq<int>
    var restartsToGo: nat

    ghost var past: seq<seq<Mcu>>
    ghost var now: seq<Mcu>

    ghost predicate Static()
      reads this
    {
      && NaturalOrder(order) && dcCounts != acCounts
      && dcCounts.Length0 == acCounts.Length0 == 4 && dcCounts.Length1 == acCounts.Length1 == 257
    }

    /** The counters are those of all the words of the scan so far, and the segments are divided as the
        coding pass will divide them. */
    ghost predicate Valid()
      reads this, dcCounts, acCounts
    {
      && Static()
      && (forall i :: 0 <= i < |past| ==> InRange(Flat(past[i]))) && InRange(Flat(now)) && lastDc == LastDc(Flat(now))
      && RowCounts(dcCounts, Dc, dcSlot, past, Flat(now)) && RowCounts(acCounts, Ac, acSlot, past, Flat(now))
      && (if restartInterval == 0 then past == [] else restartsToGo + |now| == restartInterval)
      && forall i :: 0 <= i < |past| ==> |past[i]| == restartInterval
    }

    /** start_pass_huff when gathering. */
    constructor (membership: seq<component>, dcSlot: slots, acSlot: slots, order: seq<nat>, restartInterval: nat)
      requires NaturalOrder(order)
      ensures Valid() && past == [] && now == [] && fresh(dcCounts) && fresh(acCounts)
      ensures this.membership == membership && this.dcSlot == dcSlot && this.acSlot == acSlot
      ensures this.order == order && this.restartInterval == restartInterval
    {
      this.membership, this.dcSlot, this.acSlot, this.order, this.restartInterval := membership, dcSlot, acSlot, order, restartInterval;
      dcCounts := new nat[4, 257]((_, _) => 0);
      acCounts := new nat[4, 257]((_, _) => 0);
      lastDc, restartsToGo := NoLast, restartInterval;
      past, now := [], [];
    }

    /** htest_one_block */
    method TestBlock(block: array<int>, ci: component, ghost items: seq<Item>) returns (ok: bool)
      requires Static() && block.Length == 64 && lastDc == LastDc(items)
      requires RowCounts(dcCounts, Dc, dcSlot, past, items) && RowCounts(acCounts, Ac, acSlot, past, items)
      modifies dcCounts, acCounts
      ensures block[..] == old(block[..])
      ensures var x := Item(ci, Zigzag(order, block[..]));
        && (ok <==> ItemInRange(lastDc[ci], x.z))
        && (ok ==> RowCounts(dcCounts, Dc, dcSlot, past, items + [x]) && RowCounts(acCounts, Ac, acSlot, past, items + [x]))
    {
      hide Zigzag, NBits, Times, Counts, Bin, AcInRange, Rows, ScanWords, WordsOf, LastDc, BlockWords;
      ghost var x := Item(ci, Zigzag(order, block[..]));
      ZigzagDc(order, block[..]);
      ghost var dcWas, acWas := Rows(dcCounts), Rows(acCounts);
      CountsNone(dcCounts, dcSlot[ci]);
      var nbits, temp2 := Category(block[0] - lastDc[ci]);
      if nbits > MAX_COEF_BITS + 1 { return false; }
      CountOne(dcCounts, dcSlot[ci], nbits, dcWas, [], Bin(temp2, nbits));
      ok := CountAc(block, order, acCounts, acSlot[ci]);
      if ok {
        assert [] + [Word(nbits, Bin(temp2, nbits))] == ItemWords(Dc, lastDc[ci], x.z);
        RowCountsNext(dcCounts, dcWas, Dc, dcSlot, past, items, x);
        RowCountsNext(acCounts, acWas, Ac, acSlot, past, items, x);
      }
    }

    /** The loop over the blocks of an MCU. */
    method TestBlocks(blocks: seq<array<int>>, ghost base: seq<Item>) returns (ok: bool)
      requires Static() && |blocks| == |membership| && forall i :: 0 <= i < |blocks| ==> blocks[i].Length == 64
      requires InRange(base) && lastDc == LastDc(base)
      requires RowCounts(dcCounts, Dc, dcSlot, past, base) && RowCounts(acCounts, Ac, acSlot, past, base)
      modifies this`lastDc, dcCounts, acCounts
      ensures Contents(blocks) == old(Contents(blocks))
      ensures var items := base + ItemsOf(membership, order, old(Contents(blocks)), |blocks|);
        && (ok <==> InRange(items))
        && (ok ==> lastDc == LastDc(items))
        && (ok ==> RowCounts(dcCounts, Dc, dcSlot, past, items) && RowCounts(acCounts, Ac, acSlot, past, items))
    {
      hide Zigzag, RowCounts, LastDc, ItemInRange, InRange, ItemsOf;
      ok := true;
      ghost var raw := Contents(blocks);
      ghost var items := base;
      ItemsNone(membership, order, raw);
      assert base + [] == base;
      for blkn := 0 to |membership|
        invariant ok && items == base + ItemsOf(membership, order, raw, blkn) && InRange(items) && lastDc == LastDc(items)
        invariant forall i :: 0 <= i < |blocks| ==> blocks[i][..] == raw[i]
        invariant RowCounts(dcCounts, Dc, dcSlot, past, items) && RowCounts(acCounts, Ac, acSlot, past, items)
      {
        var ci := membership[blkn];
        var block := blocks[blkn];
        ghost var x := Item(ci, Zigzag(order, raw[blkn]));
        ghost var rest := ItemsSplit(membership, order, raw, blkn);
        assert base + ItemsOf(membership, order, raw, blkn + 1) == items + [x];
        InRangeAppend(items, x, rest);
        ok := TestBlock(block, ci, items);
        if !ok {
          assert items + [x] + rest == base + ItemsOf(membership, order, raw, |blocks|);
          return;
        }
        items := items + [x];
        ZigzagDc(order, raw[blkn]);
        lastDc := lastDc[ci := block[0]];
      }
    }

    /** encode_mcu_gather.  Fails just if a value is out of range. */
    method EncodeMcuGather(blocks: seq<array<int>>) returns (ok: bool)
      requires Valid() && |blocks| == |membership| && forall i :: 0 <= i < |blocks| ==> blocks[i].Length == 64
      modifies this, dcCounts, acCounts
      ensures
        var items := ItemsOf(membership, order, old(Contents(blocks)), |blocks|);
        var due := restartInterval > 0 && old(restartsToGo) == 0;
        && (ok <==> InRange(Flat(if due then [items] else old(now) + [items])))
        && (ok ==> Valid())
        && (ok ==> past == (if due then old(past) + [old(now)] else old(past)))
        && (ok ==> now == (if due then [items] else old(now) + [items]))
    {
      hide NaturalOrder, InRange, LastDc, Flat, ItemsOf, Zigzag, Times, ScanWords, WordsOf;
      ghost var base := now;
      if restartInterval > 0 {
        if restartsToGo == 0 {
          lastDc := NoLast;
          restartsToGo := restartInterval;
          NewSegment(dcCounts, Dc, dcSlot, past, Flat(now), now);
          NewSegment(acCounts, Ac, acSlot, past, Flat(now), now);
          past, base := past + [now], [];
        }
        restartsToGo := restartsToGo - 1;
      }
      ghost var items := ItemsOf(membership, order, Contents(blocks), |blocks|);
      FlatNext(base, items);
      assert [] + [items] == [items];
      ok := TestBlocks(blocks, Flat(base));
      now := base + [items];
    }
  }

  lemma NewSegment(counts: array2<nat>, which: Which, slot: slots, segs: seq<seq<Mcu>>, more: seq<Item>, s: seq<Mcu>)
    requires counts.Length0 == 4 && counts.Length1 == 257 && more == Flat(s) && RowCounts(counts, which, slot, segs, more)
    ensures RowCounts(counts, which, slot, segs + [s], Flat([])) && InRange(Flat([])) && LastDc(Flat([])) == NoLast
  {
    hide Times;
    FlatNone();
    assert (segs + [s])[..|segs|] == segs;
    forall t, n | 0 <= t < 4 && 0 <= n < 257
      ensures counts[t, n] == Times(ScanWords(which, slot, segs + [s], t), n) + Times(WordsOf(which, slot, [], t), n)
    {
      TimesAppend(ScanWords(which, slot, segs, t), WordsOf(which, slot, more, t), n);
      assert Times([], n) == 0 by { NoTimes(n); }
    }
  }

  lemma NoTimes(n: nat)
    ensures Times([], n) == 0
  {
  }

  lemma {:induction false} InRangeAppend(items: seq<Item>, x: Item, rest: seq<Item>)
    requires InRange(items)
    ensures LastDc(items + [x]) == LastDc(items)[x.ci := x.z[0]]
    ensures InRange(items + [x]) <==> ItemInRange(LastDc(items)[x.ci], x.z)
    ensures InRange(items + [x] + rest) ==> InRange(items + [x])
    decreases |rest|
  {
    hide ItemInRange;
    assert (items + [x])[..|items|] == items;
    if rest == [] {
      assert items + [x] + rest == items + [x];
    } else {
      assert (items + [x] + rest)[..|items + [x] + rest| - 1] == items + [x] + rest[..|rest| - 1];
      InRangeAppend(items, x, rest[..|rest| - 1]);
    }
  }
}
