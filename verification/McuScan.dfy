// Scans coded MCU by MCU (jchuff.c and the DC scans of jcphuff.c): sequential blocks (sections F.1.2
// and F.2.2 of T.81), DC first scans and DC refinement scans (section G.1.2.1), as bit strings, and
// that decoding undoes encoding for any interleaving of components.
module McuScan {
  import opened Wrappers
  import opened Bits
  import opened HuffmanTable
  import opened Coefficients
  import opened AcBlocks
  import opened AcScan

  const MAX_COMPS_IN_SCAN: nat := 4

  type component = n: int | 0 <= n < MAX_COMPS_IN_SCAN

  /** Whole blocks, or only their DC coefficients. */
  datatype Mode = Whole | DcFirst(al: nat) | DcRefine(al: nat)

  /** The scan: its mode, the component of every block of an MCU, and each component's tables. */
  datatype Coder = Coder(mode: Mode, membership: seq<component>, dc: seq<Table>, ac: seq<Table>)

  /** The AC part of a sequential block. */
  const WHOLE_BAND := Params(Sequential, 1, 63, 0)

  predicate ValidCoder(c: Coder) {
    && |c.dc| == |c.ac| == MAX_COMPS_IN_SCAN
    && (forall i :: 0 <= i < MAX_COMPS_IN_SCAN ==> Legal(c.dc[i]) && SmallSymbols(c.dc[i]))
    && (forall i :: 0 <= i < MAX_COMPS_IN_SCAN ==> Legal(c.ac[i]))
  }

  /** DC categories are at most 15, as both table builders check. */
  predicate SmallSymbols(h: Table)
    requires Legal(h)
  {
    forall q :: 0 <= q < Count(h) ==> h.huffval[q] <= 15
  }

  // ---------- one block ----------

  ghost function DcBits(h: Table, diff: int): seq<bool>
    requires Legal(h)
  {
    SymBits(h, NBits(Abs(diff))) + Bin(Complement(diff), NBits(Abs(diff)))
  }

  ghost predicate DcOk(h: Table, diff: int)
    requires Legal(h)
  {
    NBits(Abs(diff)) <= MAX_COEF_BITS + 1 && Listed(h, NBits(Abs(diff)))
  }

  ghost function AcBits(h: Table, z: Block): seq<bool>
    requires Legal(h)
  {
    var l := FirstUpTo(h, z, 0, 1, 64);
    l.c + if l.r > 0 then SymBits(h, 0) else []
  }

  ghost predicate AcOk(h: Table, z: Block)
    requires Legal(h)
  {
    var l := FirstUpTo(h, z, 0, 1, 64);
    l.ok && (l.r > 0 ==> Listed(h, 0))
  }

  /** The DC value that differences are taken of. */
  function DcValue(mode: Mode, z: Block): int {
    match mode
    case Whole => z[0]
    case DcFirst(al) => Shr(z[0], al)
    case DcRefine(_) => 0
  }

  ghost function BlockBits(c: Coder, ci: component, last: int, z: Block): seq<bool>
    requires ValidCoder(c)
  {
    match c.mode
    case Whole => DcBits(c.dc[ci], z[0] - last) + AcBits(c.ac[ci], z)
    case DcFirst(al) => DcBits(c.dc[ci], Shr(z[0], al) - last)
    case DcRefine(al) => [BitSet(z[0], al)]
  }

  ghost predicate BlockOk(c: Coder, ci: component, last: int, z: Block)
    requires ValidCoder(c)
  {
    match c.mode
    case Whole => DcOk(c.dc[ci], z[0] - last) && AcOk(c.ac[ci], z)
    case DcFirst(al) => DcOk(c.dc[ci], Shr(z[0], al) - last)
    case DcRefine(al) => true
  }

  /** Section F.2.2.1: a difference. */
  function ReadDc(h: Table, b: seq<bool>): Option<(int, seq<bool>)>
    requires Legal(h)
  {
    match Serial(h, b)
    case None => None
    case Some((s, b1)) =>
      if s == 0 then Some((0, b1))
      else match TakeBits(b1, s)
        case None => None
        case Some((x, b2)) => Some((Extend(x, s), b2))
  }

  /** Adding a bit to a DC value, whose sign needs no attention: |= p1. */
  function AddBit(v: int, al: nat): int {
    if BitSet(v, al) then v else v + Shl(1, al)
  }

  /** decode_mcu, decode_mcu_DC_first and decode_mcu_DC_refine for one block: the block, the new
      prediction, and the unread bits. */
  function DecodeItem(c: Coder, ci: component, last: int, z: Block, b: seq<bool>): Option<(Block, int, seq<bool>)>
    requires ValidCoder(c)
  {
    match c.mode
    case DcRefine(al) =>
      if b == [] then None else Some((z[0 := if b[0] then AddBit(z[0], al) else z[0]], last, b[1..]))
    case _ =>
      match ReadDc(c.dc[ci], b)
      case None => None
      case Some((d, b1)) => DecodeRest(c, ci, d + last, z, b1)
  }

  /** ... once the DC value is known. */
  function DecodeRest(c: Coder, ci: component, s: int, z: Block, b: seq<bool>): Option<(Block, int, seq<bool>)>
    requires ValidCoder(c)
  {
    match c.mode
    case DcFirst(al) => Some((z[0 := Shl(s, al)], s, b))
    case _ =>
      match DecodeBlock(c.ac[ci], WHOLE_BAND, z[0 := s], b, 0)
      case None => None
      case Some((z', b', _)) => Some((z', s, b'))
  }

  /** What the scan relies on: cleared blocks, or the DC value down to the bit above. */
  predicate ItemReady(mode: Mode, before: Block, z: Block) {
    match mode
    case Whole => Empty(before, 1, 63)
    case DcFirst(_) => true
    case DcRefine(al) => before[0] == Shl(Shr(z[0], al + 1), al + 1)
  }

  /** ... and what it achieves. */
  function ItemAfter(mode: Mode, before: Block, z: Block): Block {
    match mode
    case Whole => z
    case DcFirst(al) => before[0 := Shl(Shr(z[0], al), al)]
    case DcRefine(al) => before[0 := Shl(Shr(z[0], al), al)]
  }

  lemma DcDecodes(h: Table, diff: int, t: seq<bool>)
    requires Legal(h) && DcOk(h, diff)
    ensures ReadDc(h, DcBits(h, diff) + t) == Some((diff, t))
  {
    hide Serial, TakeBits, Legal, Listed, SymBits, Bin, Low, Extend, NBits;
    var n := NBits(Abs(diff));
    SymDecodes(h, n, Bin(Complement(diff), n) + t);
    assert DcBits(h, diff) + t == SymBits(h, n) + (Bin(Complement(diff), n) + t);
    ZeroCategory(diff);
    if n > 0 {
      TakeBin(Complement(diff), n, t);
      ExtendComplement(diff);
    } else {
      ShiftNone(Complement(diff));
      assert [] + t == t;
    }
  }

  lemma ZeroCategory(diff: int)
    ensures NBits(Abs(diff)) == 0 <==> diff == 0
  {
  }

  /** The AC part of a sequential block (sections F.1.2.2 and F.2.2.2). */
  lemma AcDecodes(h: Table, z: Block, before: Block, t: seq<bool>)
    requires Legal(h) && AcOk(h, z) && Empty(before, 1, 63) && before[0] == z[0]
    ensures DecodeBlock(h, WHOLE_BAND, before, AcBits(h, z) + t, 0) == Some((z, t, 0))
  {
    hide Serial, Legal, Listed, SymBits, FirstUpTo, DecodeFirst, DecodeSequential, Improve;
    var l := FirstUpTo(h, z, 0, 1, 64);
    OneBlockRun(h);
    FirstDecodes(h, z, before, 1, 63, 0, 1, t);
    ImproveWhole(before, z);
    if l.r > 0 {
      assert AcBits(h, z) + t == l.c + (EobBits(h, 1) + t);
    } else {
      assert AcBits(h, z) == l.c;
    }
    SequentialAgrees(h, before, 1, 63, 0, AcBits(h, z) + t);
  }

  lemma OneBlockRun(h: Table)
    requires Legal(h)
    ensures EobSym(1) == 0 && EobBits(h, 1) == SymBits(h, 0)
  {
    hide Legal, SymBits;
    assert NBits(1) == 1 + NBits(0) == 1;
    ShiftNone(1);
    assert SymBits(h, 0) + [] == SymBits(h, 0);
  }

  lemma ImproveWhole(before: Block, z: Block)
    requires before[0] == z[0]
    ensures Improve(before, z, 1, 63, 0) == z
  {
    hide Point;
    var after := Improve(before, z, 1, 63, 0);
    forall i | 0 <= i < 64 ensures after[i] == z[i] { PointZero(z[i]); }
    assert after == z;
  }

  /** One more bit of an arithmetically shifted value. */
  lemma DcBit(v: int, al: nat)
    ensures var c := Shl(Shr(v, al + 1), al + 1);
      Shl(Shr(v, al), al) == (if BitSet(v, al) then AddBit(c, al) else c)
  {
    hide Shr, Shl;
    var q := Shr(v, al + 1);
    ShrLast(v, al);
    ShlInner(q, al);
    assert Shl(q, al + 1) == Shl(2 * q, al) by { ShlShl(q, 1, al); ShlOne(q); }
    JoinAt(2 * q, 0, al);
    ShlAdd(2 * q, 1, al);
  }

  lemma ItemDecodes(c: Coder, ci: component, last: int, z: Block, before: Block, t: seq<bool>)
    requires ValidCoder(c) && ItemReady(c.mode, before, z) && BlockOk(c, ci, last, z)
    ensures match DecodeItem(c, ci, last, before, BlockBits(c, ci, last, z) + t)
      case None => false
      case Some((after, s, rest)) =>
        after == ItemAfter(c.mode, before, z) && rest == t && s == if c.mode.DcRefine? then last else DcValue(c.mode, z)
  {
    hide ReadDc, DcBits, AcBits, DcOk, AcOk, DecodeBlock, Legal, Shr, Shl, AddBit;
    match c.mode {
      case Whole =>
        var d, a := DcBits(c.dc[ci], z[0] - last), AcBits(c.ac[ci], z);
        DcDecodes(c.dc[ci], z[0] - last, a + t);
        assert d + a + t == d + (a + t);
        AcDecodes(c.ac[ci], z, before[0 := z[0]], t);
      case DcFirst(al) =>
        DcDecodes(c.dc[ci], Shr(z[0], al) - last, t);
      case DcRefine(al) =>
        DcBit(z[0], al);
        var b := [BitSet(z[0], al)] + t;
        assert b[0] == BitSet(z[0], al) && b[1..] == t;
    }
  }

  // ---------- any number of blocks ----------

  /** A block with the component it belongs to. */
  datatype Item = Item(ci: component, z: Block)

  function Blocks(items: seq<Item>): (zs: seq<Block>)
    ensures |zs| == |items|
  {
    seq(|items|, i requires 0 <= i < |items| => items[i].z)
  }

  type Mcu = seq<Item>

  function Flat(mcus: seq<Mcu>): seq<Item> {
    if mcus == [] then [] else Flat(mcus[..|mcus| - 1]) + mcus[|mcus| - 1]
  }

  lemma FlatNone()
    ensures Flat([]) == []
  {
  }

  lemma FlatNext(mcus: seq<Mcu>, m: Mcu)
    ensures Flat(mcus + [m]) == Flat(mcus) + m
  {
    assert (mcus + [m])[..|mcus|] == mcus;
  }

  lemma {:induction false} FlatAppend(a: seq<Mcu>, b: seq<Mcu>)
    ensures Flat(a + b) == Flat(a) + Flat(b)
    decreases |b|
  {
    if b == [] {
      assert a + b == a && Flat(a) + [] == Flat(a);
    } else {
      assert (a + b)[..|a + b| - 1] == a + b[..|b| - 1];
      FlatAppend(a, b[..|b| - 1]);
    }
  }

  /** Bits, whether all of them could be sent, and the predictions. */
  datatype Sent = Sent(bits: seq<bool>, ok: bool, last: seq<int>)

  const NoLast: seq<int> := [0, 0, 0, 0]

  ghost function SendItem(c: Coder, e: Sent, x: Item): (e': Sent)
    requires ValidCoder(c) && |e.last| == MAX_COMPS_IN_SCAN
    ensures |e'.last| == MAX_COMPS_IN_SCAN
  {
    Sent(e.bits + BlockBits(c, x.ci, e.last[x.ci], x.z), e.ok && BlockOk(c, x.ci, e.last[x.ci], x.z),
         if c.mode.DcRefine? then e.last else e.last[x.ci := DcValue(c.mode, x.z)])
  }

  ghost function SendAll(c: Coder, items: seq<Item>): (e: Sent)
    requires ValidCoder(c)
    ensures |e.last| == MAX_COMPS_IN_SCAN
  {
    if items == [] then Sent([], true, NoLast) else SendItem(c, SendAll(c, items[..|items| - 1]), items[|items| - 1])
  }

  /** The decoder's blocks so far, its predictions, and the unread bits. */
  type Got = Option<(seq<Block>, seq<int>, seq<bool>)>

  function GetAll(c: Coder, last0: seq<int>, befores: seq<Item>, b: seq<bool>): (r: Got)
    requires ValidCoder(c) && |last0| == MAX_COMPS_IN_SCAN
    ensures r.Some? ==> |r.value.0| == |befores| && |r.value.1| == MAX_COMPS_IN_SCAN
  {
    if befores == [] then Some(([], last0, b))
    else match GetAll(c, last0, befores[..|befores| - 1], b)
      case None => None
      case Some((zs, last, b1)) =>
        var x := befores[|befores| - 1];
        match DecodeItem(c, x.ci, last[x.ci], x.z, b1)
        case None => None
        case Some((z, s, b2)) => Some((zs + [z], last[x.ci := s], b2))
  }

  lemma GetNext(c: Coder, last0: seq<int>, xs: seq<Item>, x: Item, b: seq<bool>)
    requires ValidCoder(c) && |last0| == MAX_COMPS_IN_SCAN
    ensures GetAll(c, last0, xs, b).Some? ==>
      var (zs, last, b1) := GetAll(c, last0, xs, b).value;
      var m := DecodeItem(c, x.ci, last[x.ci], x.z, b1);
      GetAll(c, last0, xs + [x], b) == if m.None? then None else Some((zs + [m.value.0], last[x.ci := m.value.1], m.value.2))
  {
    hide DecodeItem, Legal, SmallSymbols;
    assert (xs + [x])[..|xs|] == xs;
  }

  predicate ItemsReady(c: Coder, befores: seq<Item>, items: seq<Item>) {
    && |befores| == |items|
    && forall i :: 0 <= i < |items| ==> befores[i].ci == items[i].ci && ItemReady(c.mode, befores[i].z, items[i].z)
  }

  function ItemsAfter(c: Coder, befores: seq<Item>, items: seq<Item>): (zs: seq<Block>)
    requires |befores| == |items|
  {
    seq(|items|, i requires 0 <= i < |items| => ItemAfter(c.mode, befores[i].z, items[i].z))
  }

  /** What the blocks ys add to a scan that has had xs. */
  ghost function Adds(c: Coder, xs: seq<Item>, ys: seq<Item>): seq<bool>
    requires ValidCoder(c)
  {
    if ys == [] then []
    else
      var n := |ys| - 1;
      Adds(c, xs, ys[..n]) + BlockBits(c, ys[n].ci, SendAll(c, xs + ys[..n]).last[ys[n].ci], ys[n].z)
  }

  lemma {:induction false} SendAdds(c: Coder, xs: seq<Item>, ys: seq<Item>)
    requires ValidCoder(c)
    ensures SendAll(c, xs + ys).bits == SendAll(c, xs).bits + Adds(c, xs, ys)
    decreases |ys|
  {
    hide SendAll, Legal, BlockOk, BlockBits, SmallSymbols;
    if ys == [] {
      assert xs + ys == xs;
    } else {
      var n := |ys| - 1;
      assert xs + ys == (xs + ys[..n]) + [ys[n]];
      SendNext(c, xs + ys[..n], ys[n]);
      SendAdds(c, xs, ys[..n]);
    }
  }

  /** The round trip, from anywhere in a scan: whatever follows the bits of the blocks ys, a decoder with
      the encoder's predictions recovers every block and the predictions, and stops where the encoder
      stopped. */
  lemma {:induction false} McuRoundTrip(c: Coder, xs: seq<Item>, ys: seq<Item>, befores: seq<Item>, t: seq<bool>)
    requires ValidCoder(c) && ItemsReady(c, befores, ys) && SendAll(c, xs + ys).ok
    ensures GetAll(c, SendAll(c, xs).last, befores, Adds(c, xs, ys) + t) == Some((ItemsAfter(c, befores, ys), SendAll(c, xs + ys).last, t))
    decreases |ys|
  {
    hide Legal, BlockBits, BlockOk, DecodeItem, ItemReady, ItemAfter, SmallSymbols, DcValue, GetAll, SendAll, ItemsAfter;
    var last0 := SendAll(c, xs).last;
    if ys == [] {
      assert [] + t == t && xs + ys == xs;
      NothingAfter(c, befores, ys);
      GetNone(c, last0, befores, t);
    } else {
      var n := |ys| - 1;
      var y := ys[n];
      assert xs + ys == (xs + ys[..n]) + [y];
      SendNext(c, xs + ys[..n], y);
      var e := SendAll(c, xs + ys[..n]);
      var bits := BlockBits(c, y.ci, e.last[y.ci], y.z);
      McuRoundTrip(c, xs, ys[..n], befores[..n], bits + t);
      assert Adds(c, xs, ys[..n]) + bits + t == Adds(c, xs, ys[..n]) + (bits + t);
      ItemDecodes(c, y.ci, e.last[y.ci], y.z, befores[n].z, t);
      NothingAfter(c, befores, ys);
      assert befores == befores[..n] + [befores[n]];
      GetNext(c, last0, befores[..n], befores[n], Adds(c, xs, ys[..n]) + (bits + t));
      assert e.last == e.last[y.ci := e.last[y.ci]];
    }
  }

  lemma NothingAfter(c: Coder, befores: seq<Item>, ys: seq<Item>)
    requires |befores| == |ys|
    ensures ys == [] ==> ItemsAfter(c, befores, ys) == []
    ensures var n := |ys| - 1;
      n >= 0 ==> ItemsAfter(c, befores, ys) == ItemsAfter(c, befores[..n], ys[..n]) + [ItemAfter(c.mode, befores[n].z, ys[n].z)]
  {
    hide ItemAfter;
  }

  lemma GetNone(c: Coder, last0: seq<int>, befores: seq<Item>, b: seq<bool>)
    requires ValidCoder(c) && |last0| == MAX_COMPS_IN_SCAN && befores == []
    ensures GetAll(c, last0, befores, b) == Some(([], last0, b))
  {
  }

  /** In particular for a whole segment. */
  lemma SegmentRoundTrip(c: Coder, items: seq<Item>, befores: seq<Item>, t: seq<bool>)
    requires ValidCoder(c) && ItemsReady(c, befores, items) && SendAll(c, items).ok
    ensures GetAll(c, NoLast, befores, SendAll(c, items).bits + t) == Some((ItemsAfter(c, befores, items), SendAll(c, items).last, t))
  {
    hide Legal, BlockBits, BlockOk, DecodeItem, ItemReady, ItemAfter, SmallSymbols, DcValue;
    SendNone(c);
    assert [] + items == items;
    McuRoundTrip(c, [], items, befores, t);
    SendAdds(c, [], items);
    assert [] + Adds(c, [], items) == Adds(c, [], items);
  }

  lemma SendNone(c: Coder)
    requires ValidCoder(c)
    ensures SendAll(c, []) == Sent([], true, NoLast)
  {
  }

  lemma SendNext(c: Coder, items: seq<Item>, x: Item)
    requires ValidCoder(c)
    ensures SendAll(c, items + [x]) == SendItem(c, SendAll(c, items), x)
  {
    assert (items + [x])[..|items|] == items;
  }

  /** A block that cannot be sent spoils the scan. */
  lemma {:induction false} SendPrefix(c: Coder, items: seq<Item>, more: seq<Item>)
    requires ValidCoder(c)
    ensures SendAll(c, items + more).ok ==> SendAll(c, items).ok
    decreases |more|
  {
    hide Legal, BlockOk, BlockBits, SmallSymbols;
    if more == [] {
      assert items + more == items;
    } else {
      assert items + more == (items + more[..|more| - 1]) + [more[|more| - 1]];
      SendNext(c, items + more[..|more| - 1], more[|more| - 1]);
      SendPrefix(c, items, more[..|more| - 1]);
    }
  }

  /** The bits of each segment between restart markers. */
  ghost function McuSegments(c: Coder, segs: seq<seq<Mcu>>): seq<seq<bool>>
    requires ValidCoder(c)
  {
    seq(|segs|, i requires 0 <= i < |segs| => SendAll(c, Flat(segs[i])).bits)
  }
}
