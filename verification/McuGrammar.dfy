// What a sequential scan and a DC scan send, read off the coefficients (sections F.1.2 and G.1.2.1 of T.81): a word
// for the difference of a block's DC value from the last of its component, then the words of its AC coefficients.
module McuGrammar {
  import opened Bits
  import opened HuffmanTable
  import opened Coefficients
  import opened AcBlocks
  import opened AcScan
  import opened McuScan
  import AcGrammar

  /** The AC coefficients of a block at full precision. */
  const BAND := Params(Initial, 1, 63, 0)

  /** The category of a difference, and the difference within it. */
  function DiffWord(d: int): AcGrammar.Word {
    var n := if d == 0 then 0 else AcGrammar.Log2(Abs(d)) + 1;
    AcGrammar.Word(0, n, Bin(if d > 0 then d else d + Pow2(n) - 1, n))
  }

  /** The words of the AC coefficients, and the end of block unless the last coefficient is among them. */
  ghost function BlockWords(z: Block): seq<AcGrammar.Word> {
    AcGrammar.Words(BAND, z, 1, 0, []) + if z[63] == 0 then [AcGrammar.Word(0, 0, [])] else []
  }

  /** The DC value that a scan sends. */
  function DcOf(mode: Mode, z: Block): int {
    match mode
    case Whole => z[0]
    case DcFirst(al) => AcGrammar.Quotient(z[0], Pow2(al))
    case DcRefine(_) => 0
  }

  /** That of the last block of a component, 0 at the start of a segment. */
  function LastDc(mode: Mode, items: seq<Item>, ci: component): int {
    if items == [] then 0
    else
      var x := items[|items| - 1];
      if x.ci == ci then DcOf(mode, x.z) else LastDc(mode, items[..|items| - 1], ci)
  }

  ghost function ItemBits(c: Coder, items: seq<Item>, x: Item): seq<bool>
    requires ValidCoder(c)
  {
    match c.mode
    case Whole =>
      AcGrammar.Spell(c.dc[x.ci], [DiffWord(x.z[0] - LastDc(c.mode, items, x.ci))]) + AcGrammar.Spell(c.ac[x.ci], BlockWords(x.z))
    case DcFirst(al) => AcGrammar.Spell(c.dc[x.ci], [DiffWord(DcOf(c.mode, x.z) - LastDc(c.mode, items, x.ci))])
    case DcRefine(al) => [AcGrammar.Quotient(x.z[0], Pow2(al)) % 2 == 1]
  }

  /** Every symbol has a code, and no coefficient needs more than ten bits, no difference more than eleven. */
  ghost predicate ItemSendable(c: Coder, items: seq<Item>, x: Item)
    requires ValidCoder(c)
  {
    match c.mode
    case Whole => DiffSendable(c.dc[x.ci], x.z[0] - LastDc(c.mode, items, x.ci)) && AcGrammar.Sendable(c.ac[x.ci], BlockWords(x.z))
    case DcFirst(al) => DiffSendable(c.dc[x.ci], DcOf(c.mode, x.z) - LastDc(c.mode, items, x.ci))
    case DcRefine(al) => true
  }

  ghost predicate DiffSendable(h: Table, d: int)
    requires Legal(h)
  {
    DiffWord(d).size <= 11 && Listed(h, DiffWord(d).size)
  }

  /** A segment, block by block. */
  ghost function Spelt(c: Coder, items: seq<Item>): seq<bool>
    requires ValidCoder(c)
  {
    if items == [] then [] else Spelt(c, items[..|items| - 1]) + ItemBits(c, items[..|items| - 1], items[|items| - 1])
  }

  ghost predicate AllSendable(c: Coder, items: seq<Item>)
    requires ValidCoder(c)
  {
    forall i :: 0 <= i < |items| ==> ItemSendable(c, items[..i], items[i])
  }

  lemma DiffSpelt(h: Table, d: int)
    requires Legal(h)
    ensures DcBits(h, d) == AcGrammar.Spell(h, [DiffWord(d)]) && (DcOk(h, d) <==> DiffSendable(h, d))
  {
    hide Legal, Listed, SymBits, Bin, NBits, AcGrammar.Log2, Pow2, AcGrammar.Spell, AcGrammar.Sendable;
    DiffSize(d);
    DiffBits(d);
    AcGrammar.SpellOne(h, DiffWord(d));
  }

  lemma DiffSize(d: int)
    ensures DiffWord(d).size == NBits(Abs(d))
  {
    hide Bin, NBits, AcGrammar.Log2, Pow2;
    ZeroCategory(d);
    if d != 0 { AcGrammar.LogBits(Abs(d)); }
  }

  lemma DiffBits(d: int)
    ensures var n := NBits(Abs(d)); Bin(Complement(d), n) == Bin(if d > 0 then d else d + Pow2(n) - 1, n)
  {
    hide Bin, NBits, Shl, Shr, Low;
    var n := NBits(Abs(d));
    ZeroCategory(d);
    if d < 0 {
      ShlPow2(n);
      JoinAt(-1, d + Pow2(n) - 1, n);
      BinLow(d - 1, n, n);
    } else if d == 0 {
      ShiftNone(0);
      NoBits();
    }
  }

  lemma NoBits()
    ensures Pow2(0) == 1
  {
  }

  lemma BandSpelt(h: Table, p: Params, z: Block)
    requires Legal(h) && AcScan.Valid(p) && p.kind.Initial? && p.se == 63 && p.al == 0
    ensures var l, ws := FirstUpTo(h, z, p.al, p.ss, p.se + 1), AcGrammar.Words(p, z, p.ss, 0, []);
      && l.c == AcGrammar.Spell(h, ws) && (l.ok <==> AcGrammar.Sendable(h, ws)) && (l.r > 0 <==> z[63] == 0)
  {
    hide Legal, FirstUpTo, AcGrammar.Spell, AcGrammar.Sendable, AcGrammar.Words, AcGrammar.Corrections, AcGrammar.PastLast, AcGrammar.Quiet,
      AcGrammar.Coded, Mag;
    AcGrammar.BlockSpelt(h, p, z);
    FirstHoldsNothing(h, z, p.al, p.ss, p.se + 1);
    AcGrammar.CodedMag(p, z[63]);
    Unscaled(z[63]);
  }

  lemma AcSpelt(h: Table, z: Block)
    requires Legal(h)
    ensures AcBits(h, z) == AcGrammar.Spell(h, BlockWords(z)) && (AcOk(h, z) <==> AcGrammar.Sendable(h, BlockWords(z)))
  {
    hide Legal, Listed, SymBits, FirstUpTo, AcGrammar.Spell, AcGrammar.Sendable, AcGrammar.Words;
    BandSpelt(h, BAND, z);
    WithEnd(h, AcGrammar.Words(BAND, z, 1, 0, []), AcGrammar.Word(0, 0, []));
  }

  lemma WithEnd(h: Table, ws: seq<AcGrammar.Word>, w: AcGrammar.Word)
    requires Legal(h) && w.extra == [] && w.size == 0
    ensures ws + [] == ws
    ensures AcGrammar.Spell(h, ws + [w]) == AcGrammar.Spell(h, ws) + SymBits(h, 16 * w.run)
    ensures AcGrammar.Sendable(h, ws + [w]) <==> AcGrammar.Sendable(h, ws) && Listed(h, 16 * w.run)
  {
    hide Legal, Listed, SymBits, AcGrammar.Spell, AcGrammar.Sendable;
    AcGrammar.SpellAppend(h, ws, [w]);
    AcGrammar.SpellOne(h, w);
    assert SymBits(h, w.Sym()) + w.extra == SymBits(h, w.Sym());
  }

  lemma Unscaled(v: int)
    ensures Mag(v, 0) == Abs(v)
  {
    ShiftNone(Abs(v));
  }

  lemma ItemSpelt(c: Coder, items: seq<Item>, last: int, x: Item)
    requires ValidCoder(c) && (!c.mode.DcRefine? ==> last == LastDc(c.mode, items, x.ci))
    ensures BlockBits(c, x.ci, last, x.z) == ItemBits(c, items, x) && (BlockOk(c, x.ci, last, x.z) <==> ItemSendable(c, items, x))
    ensures DcValue(c.mode, x.z) == DcOf(c.mode, x.z)
  {
    hide Legal, SmallSymbols, DcBits, DcOk, AcBits, AcOk, AcGrammar.Spell, AcGrammar.Sendable, BlockWords, DiffWord, DiffSendable, Shr;
    match c.mode {
      case Whole =>
        DiffSpelt(c.dc[x.ci], x.z[0] - last);
        AcSpelt(c.ac[x.ci], x.z);
      case DcFirst(al) =>
        AcGrammar.ShrQuotient(x.z[0], al);
        DiffSpelt(c.dc[x.ci], DcOf(c.mode, x.z) - last);
      case DcRefine(al) =>
        AcGrammar.ShrQuotient(x.z[0], al);
    }
  }

  /** The bits of a segment, what stops it, and the predictions, all from the coefficients. */
  lemma {:induction false} SegmentSpelt(c: Coder, items: seq<Item>)
    requires ValidCoder(c)
    ensures SendAll(c, items).bits == Spelt(c, items) && (SendAll(c, items).ok <==> AllSendable(c, items))
    ensures !c.mode.DcRefine? ==> forall ci: component :: SendAll(c, items).last[ci] == LastDc(c.mode, items, ci)
  {
    hide Legal, SmallSymbols, BlockBits, BlockOk, ItemBits, ItemSendable, DcValue, DcOf;
    if items != [] {
      var n := |items| - 1;
      var ys, x := items[..n], items[n];
      SegmentSpelt(c, ys);
      ItemSpelt(c, ys, SendAll(c, ys).last[x.ci], x);
      assert forall i :: 0 <= i < n ==> ys[..i] == items[..i];
    }
  }
}
