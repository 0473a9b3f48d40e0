// A call of encode_mcu_huff (jchuff.c) that is refused after the destination has taken a buffer: it cannot
// be made again.
module RefusedMcu {
  import opened Bits
  import opened HuffmanTable
  import opened DerivedTables
  import opened BitWriter
  import opened Segments
  import opened Coefficients
  import opened AcBlocks
  import opened McuScan
  import opened McuEncoder
  import opened ZigzagOrder

  /** One code, of length 1, for the symbol s. */
  function Single(s: nat): Table {
    Table(seq(17, l => if l == 1 then 1 else 0), seq(256, _ => s))
  }

  lemma {:induction false} SingleCounts(s: nat, l: nat)
    requires s <= 255 && 2 <= l <= 17
    ensures Before(Single(s), l) == 1 && First(Single(s), l) == Pow2(l - 1)
    decreases l
  {
    if l > 2 {
      SingleCounts(s, l - 1);
    } else {
      assert Before(Single(s), 1) == 0 && First(Single(s), 1) == 0 && Pow2(1) == 2 * Pow2(0) == 2;
    }
  }

  lemma SingleLegal(s: nat)
    requires s <= 255
    ensures WellTyped(Single(s)) && Legal(Single(s)) && EncoderLegal(Single(s), false) && (s <= 15 ==> EncoderLegal(Single(s), true)) && Listed(Single(s), s)
    ensures s <= 15 ==> SmallSymbols(Single(s)) && |Single(s).bits| == 17
  {
    hide Before, First, Pow2;
    var h := Single(s);
    SingleCounts(s, 17);
    forall l | 1 <= l <= 16 ensures Limit(h, l) < Pow2(l) { SingleLimit(s, l); }
    assert h.huffval[0] == s;
  }

  lemma SingleLimit(s: nat, l: nat)
    requires s <= 255 && 1 <= l <= 16
    ensures Limit(Single(s), l) < Pow2(l)
  {
    if l > 1 {
      SingleCounts(s, l);
    } else {
      assert First(Single(s), 1) == 0 && Pow2(1) == 2 * Pow2(0) == 2;
    }
  }

  lemma {:induction false} NoCoefficients(h: Table, z: Block, k: nat)
    requires Legal(h) && 1 <= k <= 64 && forall i :: 1 <= i < 64 ==> z[i] == 0
    ensures FirstUpTo(h, z, 0, 1, k).ok
    decreases k
  {
    if k > 1 {
      NoCoefficients(h, z, k - 1);
      PlainValue(z[k - 1]);
    }
  }

  lemma {:induction false} AllOnes(n: nat)
    ensures Pow2(n) > 0 && NBits(Pow2(n) - 1) == n
  {
    if n > 0 {
      AllOnes(n - 1);
      assert (Pow2(n) - 1) / 2 == Pow2(n - 1) - 1;
    }
  }

  lemma ElevenBits()
    ensures NBits(2047) == 11
  {
    AllOnes(11);
    assert Pow2(11) == 2048;
  }

  lemma TwoBytes(b: seq<bool>)
    requires |b| >= 16
    ensures |Bytes(b)| >= 2
  {
    Pow2Values();
    assert Bytes(b) == Stuffed(Val(b[..8])) + Bytes(b[8..]);
    assert |Stuffed(Val(b[8..][..8]))| > 0;
  }

  /** Two components with the DC coefficient 2047 and nothing else. */
  const FLAT: Block := seq(64, k => if k == 0 then 2047 else 0)

  const PAIR: seq<component> := [0, 1]

  const BLOCKWISE: Coder := Coder(Whole, PAIR, seq(MAX_COMPS_IN_SCAN, _ => Single(11)), seq(MAX_COMPS_IN_SCAN, _ => Single(0)))

  lemma FlatBlock(last: int, ci: component)
    requires ValidCoder(BLOCKWISE) && last == 0
    ensures BlockOk(BLOCKWISE, ci, last, FLAT) && |BlockBits(BLOCKWISE, ci, last, FLAT)| >= 8
  {
    hide Legal, SymBits, FirstUpTo, NBits, Single, Listed;
    SingleLegal(11);
    SingleLegal(0);
    ElevenBits();
    NoCoefficients(Single(0), FLAT, 64);
    assert |Bin(Complement(2047), 11)| == 11;
  }

  lemma FlatSent()
    requires ValidCoder(BLOCKWISE)
    ensures var e := SendAll(BLOCKWISE, [Item(0, FLAT), Item(1, FLAT)]);
      e.ok && |e.bits| >= 16
  {
    hide Legal, BlockOk, BlockBits, SmallSymbols;
    FlatBlock(0, 0);
    FlatBlock(0, 1);
    var a, b := Item(0, FLAT), Item(1, FLAT);
    assert [a, b][..1] == [a] && [a][..0] == [];
    assert SendAll(BLOCKWISE, [a]) == SendItem(BLOCKWISE, SendAll(BLOCKWISE, []), a);
  }

  lemma FlatZigzag(order: seq<nat>, raw: seq<int>)
    requires NaturalOrder(order) && |raw| == 64 && raw[0] == 2047 && forall k :: 1 <= k < 64 ==> raw[k] == 0
    ensures Zigzag(order, raw) == FLAT
  {
    forall k | 0 <= k < 64 ensures Zigzag(order, raw)[k] == FLAT[k] {
      if k > 0 { assert order[0] != order[k]; }
    }
  }

  /** The encoder's tables. */
  method MakeTables() returns (dc: CDerived, ac: CDerived)
    ensures ValidCoder(BLOCKWISE) && Equipped(BLOCKWISE, seq(MAX_COMPS_IN_SCAN, _ => dc), seq(MAX_COMPS_IN_SCAN, _ => ac))
  {
    hide Encodes, Single, Legal, SmallSymbols, WellTyped, EncoderLegal;
    SingleLegal(11);
    SingleLegal(0);
    var d := MakeCDerivedTbl(Single(11), true);
    var a := MakeCDerivedTbl(Single(0), false);
    dc, ac := d.value, a.value;
  }

  lemma FlatItems(order: seq<nat>, raw: seq<seq<int>>)
    requires ValidCoder(BLOCKWISE) && NaturalOrder(order) && |raw| == 2 && |raw[0]| == |raw[1]| == 64 && raw[0][0] == raw[1][0] == 2047
    requires forall k :: 1 <= k < 64 ==> raw[0][k] == raw[1][k] == 0
    ensures var items := ItemsOf(PAIR, order, raw, 2);
      items == [Item(0, FLAT), Item(1, FLAT)] && Flat([items]) == Flat([] + [items]) == items && SendAll(BLOCKWISE, items).ok
    ensures Marked(McuSegments(BLOCKWISE, [])) == []
  {
    hide Zigzag, NaturalOrder, SendAll, Legal, SmallSymbols;
    FlatZigzag(order, raw[0]);
    FlatZigzag(order, raw[1]);
    var items := ItemsOf(PAIR, order, raw, 2);
    assert items == [Item(0, FLAT), Item(1, FLAT)];
    FlatNext([], items);
    assert [] + [items] == [items] && Flat([]) + items == items;
    FlatSent();
    assert McuSegments(BLOCKWISE, []) == [];
  }

  /** The MCU has more bits than the destination has room. */
  lemma NoRoom(w: Writer)
    requires ValidCoder(BLOCKWISE) && w.Capacity() == 2
    ensures !Holds(w, [], SendAll(BLOCKWISE, [Item(0, FLAT), Item(1, FLAT)]).bits)
  {
    hide Legal, SendAll, Bytes;
    FlatSent();
    TwoBytes(SendAll(BLOCKWISE, [Item(0, FLAT), Item(1, FLAT)]).bits);
  }

  lemma ContentsOf(y: array<int>, cb: array<int>)
    requires y.Length == cb.Length == 64
    ensures Contents([y, cb]) == [y[..], cb[..]]
  {
  }

  /** One MCU of two blocks, a destination with a byte of room and one more buffer of one byte: the call is
      refused, and what it leaves is not the state of an encoder between two calls. */
  method RefusedForGood() returns (e: HuffEncoder, status: Status)
    ensures fresh(e) && e.past == [] && e.now == [] && status.Refused? && !e.Valid()
  {
    hide Legal, Holds, Encodes, SmallSymbols, SendAll, Single, Zigzag, Equipped, NaturalOrder, JpegNaturalOrder, ItemsOf, ValidCoder, Contents, Marked,
      HuffEncoder.Spelt, McuSegments, Flat;
    var dc, ac := MakeTables();
    StandardOrder();
    var order := JpegNaturalOrder();
    var dcTbls, acTbls := seq(MAX_COMPS_IN_SCAN, _ => dc), seq(MAX_COMPS_IN_SCAN, _ => ac);
    e := new HuffEncoder(BLOCKWISE, dcTbls, acTbls, order, 0, 1, [1]);
    var y := new int[64](k => if k == 0 then 2047 else 0);
    var cb := new int[64](k => if k == 0 then 2047 else 0);
    ContentsOf(y, cb);
    FlatItems(order, Contents([y, cb]));
    status := e.EncodeMcu([y, cb]);
    if status.Fine? { NoRoom(e.w); }
  }
}
