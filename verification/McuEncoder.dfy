// encode_mcu_huff (jchuff.c), encode_mcu_DC_first and encode_mcu_DC_refine (jcphuff.c) as they run,
// with restarts and with a destination that may refuse in the middle of an MCU.
module McuEncoder {
  import opened Bits
  import opened HuffmanTable
  import opened DerivedTables
  import opened BitWriter
  import opened Segments
  import opened Coefficients
  import opened AcBlocks
  import opened AcEncoder
  import opened McuScan
  import McuGrammar
  import opened ZigzagOrder

  // ---------- one block ----------

  /** The magnitude category of a difference: complement, and the loop that shifts it away. */
  method Category(diff: int) returns (nbits: nat, temp2: int)
    ensures nbits == NBits(Abs(diff)) && temp2 == Complement(diff)
  {
    var temp: nat := if diff < 0 then -diff else diff;
    temp2 := if diff < 0 then diff - 1 else diff;
    nbits := 0;
    while temp != 0
      invariant nbits + NBits(temp) == NBits(Abs(diff))
    {
      nbits := nbits + 1;
      temp := temp / 2;
    }
  }

  /** The DC part of encode_one_block and encode_mcu_DC_first. */
  method EncodeDc(w: Writer, tbl: CDerived, diff: int, ghost h: Table, ghost pre: seq<byte>, ghost b: seq<bool>)
    returns (status: Status, w': Writer)
    requires Tables(h, tbl) && Holds(w, pre, b)
    ensures w'.Capacity() == w.Capacity() && (status.Refused? ==> w'.Spent()) && Later(w, w')
    ensures status.Fine? ==> DcOk(h, diff) && Holds(w', pre, b + DcBits(h, diff))
    ensures status.MissingCode? || status.BadCoef? ==> !DcOk(h, diff)
  {
    hide Legal, Encodes, Holds, Listed, SymBits, Bin, NBits, Writer.Capacity, Writer.Spent, Later;
    LaterSelf(w, pre, b);
    var nbits, temp2 := Category(diff);
    if nbits > MAX_COEF_BITS + 1 { return BadCoef, w; }
    status, w' := EmitSymbol(w, tbl, nbits, h, pre, b);
    if !status.Fine? { return; }
    ghost var w1, s := w', SymBits(h, nbits);
    if nbits > 0 {
      status, w' := EmitBits(w', temp2, nbits, pre, b + s);
      LaterTrans(w, w1, w');
    } else {
      ShiftNone(temp2);
      assert b + s == b + s + [];
    }
    assert b + s + Bin(temp2, nbits) == b + DcBits(h, diff);
  }

  lemma LaterTrans(a: Writer, b: Writer, c: Writer)
    requires Later(a, b) && Later(b, c) && a.start <= |a.out|
    ensures Later(a, c)
  {
  }

  lemma LaterSelf(w: Writer, pre: seq<byte>, b: seq<bool>)
    requires Holds(w, pre, b)
    ensures Later(w, w) && w.start <= |w.out|
  {
  }

  /** Without a point transform. */
  lemma PlainValue(v: int)
    ensures Mag(v, 0) == Abs(v) && Signed(v, 0) == v
  {
  }

  /** The run-length-16 codes before a nonzero coefficient. */
  method EmitRuns(w: Writer, tbl: CDerived, r0: nat, ghost h: Table, ghost pre: seq<byte>, ghost b: seq<bool>)
    returns (status: Status, w': Writer, r: nat)
    requires Tables(h, tbl) && Holds(w, pre, b)
    ensures w'.Capacity() == w.Capacity() && (status.Refused? ==> w'.Spent()) && Later(w, w')
    ensures !status.BadCoef? && (status.MissingCode? ==> r0 > 15 && !Listed(h, ZRL))
    ensures status.Fine? ==> r == r0 % 16 && (r0 > 15 ==> Listed(h, ZRL)) && Holds(w', pre, b + ZrlBits(h, r0))
  {
    hide Legal, Encodes, Holds, Listed, SymBits, Writer.Capacity, Writer.Spent, Later;
    LaterSelf(w, pre, b);
    status, w', r := Fine, w, r0;
    ghost var sent: seq<bool> := [];
    assert b + sent == b && sent + ZrlBits(h, r) == ZrlBits(h, r0);
    while r > 15
      invariant status.Fine? && r % 16 == r0 % 16 && (r < r0 ==> Listed(h, ZRL)) && r <= r0
      invariant Holds(w', pre, b + sent) && sent + ZrlBits(h, r) == ZrlBits(h, r0)
      invariant w'.Capacity() == w.Capacity() && Later(w, w')
    {
      ghost var w1 := w';
      status, w' := EmitSymbol(w', tbl, ZRL, h, pre, b + sent);
      LaterTrans(w, w1, w');
      if !status.Fine? { return; }
      assert sent + (SymBits(h, ZRL) + ZrlBits(h, r - 16)) == sent + SymBits(h, ZRL) + ZrlBits(h, r - 16);
      assert b + sent + SymBits(h, ZRL) == b + (sent + SymBits(h, ZRL));
      sent := sent + SymBits(h, ZRL);
      r := r - 16;
    }
    assert sent + [] == sent;
  }

  /** A nonzero AC coefficient of encode_one_block. */
  method EncodeNonzero(w: Writer, tbl: CDerived, r0: nat, v: int, ghost h: Table, ghost pre: seq<byte>, ghost b: seq<bool>, ghost l: Local)
    returns (status: Status, w': Writer)
    requires Tables(h, tbl) && Holds(w, pre, b + l.c) && v != 0 && r0 == l.r && l.ok
    ensures w'.Capacity() == w.Capacity() && (status.Refused? ==> w'.Spent()) && Later(w, w')
    ensures status.Fine? ==> FirstStep(h, l, v, 0).ok && Holds(w', pre, b + FirstStep(h, l, v, 0).c)
    ensures status.MissingCode? || status.BadCoef? ==> !FirstStep(h, l, v, 0).ok
  {
    hide Legal, Encodes, Holds, Listed, SymBits, Bin, NBits, Mag, Signed, ZrlBits, Writer.Capacity, Writer.Spent, Later;
    PlainValue(v);
    var r;
    status, w', r := EmitRuns(w, tbl, r0, h, pre, b + l.c);
    if !status.Fine? { return; }
    ghost var w1, z := w', ZrlBits(h, r0);
    var nbits, temp2 := Category(v);
    if nbits > MAX_COEF_BITS { return BadCoef, w'; }
    ghost var s, x := SymBits(h, 16 * r + nbits), Bin(temp2, nbits);
    LaterSelf(w, pre, b + l.c);
    status, w' := EmitSymbol(w', tbl, 16 * r + nbits, h, pre, b + l.c + z);
    LaterTrans(w, w1, w');
    if !status.Fine? { return; }
    ghost var w2 := w';
    status, w' := EmitBits(w', temp2, nbits, pre, b + l.c + z + s);
    LaterTrans(w, w2, w');
    assert b + l.c + z + s + x == b + (l.c + (z + (s + x)));
    SomeBits(v);
  }

  lemma SomeBits(v: int)
    requires v != 0
    ensures NBits(Abs(v)) > 0
  {
  }

  /** The AC part of encode_one_block. */
  method EncodeAc(w: Writer, tbl: CDerived, block: array<int>, order: seq<nat>, ghost h: Table, ghost pre: seq<byte>, ghost b: seq<bool>)
    returns (status: Status, w': Writer)
    requires Tables(h, tbl) && Holds(w, pre, b) && NaturalOrder(order) && block.Length == 64
    ensures w'.Capacity() == w.Capacity() && (status.Refused? ==> w'.Spent()) && Later(w, w')
    ensures var z := Zigzag(order, block[..]);
      && (status.Fine? ==> AcOk(h, z) && Holds(w', pre, b + AcBits(h, z)))
      && (status.MissingCode? || status.BadCoef? ==> !AcOk(h, z))
  {
    hide Legal, Encodes, Holds, Listed, SymBits, Mag, FirstStep, FirstUpTo, Zigzag, Writer.Capacity, Writer.Spent, Later;
    ghost var z := Zigzag(order, block[..]);
    LaterSelf(w, pre, b);
    status, w' := Fine, w;
    var r := 0;
    ghost var l := Start;
    FirstNoStep(h, z, 0, 1);
    assert b + l.c == b;
    for k := 1 to 64
      invariant status.Fine? && l == FirstUpTo(h, z, 0, 1, k) && l.ok && r == l.r
      invariant Holds(w', pre, b + l.c) && w'.Capacity() == w.Capacity() && Later(w, w')
    {
      FirstMono(h, z, 0, 1, k + 1, 64);
      FirstNextStep(h, z, 0, 1, k);
      ZigzagAt(order, block[..], k);
      PlainValue(z[k]);
      ghost var w1 := w';
      var temp := block[order[k]];
      if temp == 0 {
        r := r + 1;
      } else {
        status, w' := EncodeNonzero(w', tbl, r, temp, h, pre, b, l);
        LaterTrans(w, w1, w');
        if !status.Fine? { return; }
        r := 0;
      }
      l := FirstUpTo(h, z, 0, 1, k + 1);
    }
    if r > 0 {
      ghost var w1 := w';
      status, w' := EmitSymbol(w', tbl, 0, h, pre, b + l.c);
      LaterTrans(w, w1, w');
      assert b + l.c + SymBits(h, 0) == b + AcBits(h, z);
    } else {
      assert b + l.c == b + AcBits(h, z);
    }
  }

  /** The tables an encoder needs. */
  ghost predicate Equipped(c: Coder, dcTbls: seq<CDerived>, acTbls: seq<CDerived>) {
    && ValidCoder(c) && |dcTbls| == |acTbls| == MAX_COMPS_IN_SCAN
    && (forall i :: 0 <= i < MAX_COMPS_IN_SCAN ==> Tables(c.dc[i], dcTbls[i]))
    && (forall i :: 0 <= i < MAX_COMPS_IN_SCAN ==> Tables(c.ac[i], acTbls[i]))
  }

  /** What one block sends: encode_one_block, or the loop body of the DC encoders. */
  method EncodeItem(w: Writer, c: Coder, dcTbls: seq<CDerived>, acTbls: seq<CDerived>, block: array<int>, order: seq<nat>,
                    ci: component, last: int, ghost pre: seq<byte>, ghost b: seq<bool>)
    returns (status: Status, w': Writer)
    requires Equipped(c, dcTbls, acTbls) && Holds(w, pre, b) && NaturalOrder(order) && block.Length == 64
    ensures w'.Capacity() == w.Capacity() && (status.Refused? ==> w'.Spent()) && Later(w, w')
    ensures var z := Zigzag(order, block[..]);
      && (status.Fine? ==> BlockOk(c, ci, last, z) && Holds(w', pre, b + BlockBits(c, ci, last, z)))
      && (status.MissingCode? || status.BadCoef? ==> !BlockOk(c, ci, last, z))
  {
    hide Legal, Encodes, Holds, DcOk, DcBits, AcOk, AcBits, Bin, Shr, Zigzag, SmallSymbols, Writer.Capacity, Writer.Spent, Later;
    ghost var z := Zigzag(order, block[..]);
    ZigzagAt(order, block[..], 0);
    LaterSelf(w, pre, b);
    match c.mode {
      case Whole =>
        status, w' := EncodeDc(w, dcTbls[ci], block[0] - last, c.dc[ci], pre, b);
        if !status.Fine? { return; }
        ghost var w1, d := w', DcBits(c.dc[ci], z[0] - last);
        status, w' := EncodeAc(w', acTbls[ci], block, order, c.ac[ci], pre, b + d);
        LaterTrans(w, w1, w');
        assert b + d + AcBits(c.ac[ci], z) == b + (d + AcBits(c.ac[ci], z));
      case DcFirst(al) =>
        status, w' := EncodeDc(w, dcTbls[ci], Shr(block[0], al) - last, c.dc[ci], pre, b);
      case DcRefine(al) =>
        OneBit(Shr(block[0], al));
        status, w' := EmitBits(w, Shr(block[0], al), 1, pre, b);
    }
  }

  // ---------- the encoder object ----------

  /** The blocks of an MCU as items. */
  ghost function ItemsOf(membership: seq<component>, order: seq<nat>, blocks: seq<seq<int>>, n: nat): (items: seq<Item>)
    requires NaturalOrder(order) && n <= |blocks| == |membership|
    requires forall i :: 0 <= i < |blocks| ==> |blocks[i]| == 64
    ensures |items| == n
  {
    seq(n, i requires 0 <= i < n => Item(membership[i], Zigzag(order, blocks[i])))
  }

  /** Block by block through an MCU. */
  lemma ItemsSplit(membership: seq<component>, order: seq<nat>, blocks: seq<seq<int>>, n: nat) returns (rest: seq<Item>)
    requires NaturalOrder(order) && n < |blocks| == |membership|
    requires forall i :: 0 <= i < |blocks| ==> |blocks[i]| == 64
    ensures ItemsOf(membership, order, blocks, n + 1) == ItemsOf(membership, order, blocks, n) + [Item(membership[n], Zigzag(order, blocks[n]))]
    ensures ItemsOf(membership, order, blocks, |blocks|) == ItemsOf(membership, order, blocks, n + 1) + rest
  {
    hide Zigzag;
    rest := ItemsOf(membership, order, blocks, |blocks|)[n + 1..];
  }

  lemma ItemsNone(membership: seq<component>, order: seq<nat>, blocks: seq<seq<int>>)
    requires NaturalOrder(order) && |blocks| == |membership| && forall i :: 0 <= i < |blocks| ==> |blocks[i]| == 64
    ensures ItemsOf(membership, order, blocks, 0) == []
  {
  }

  /** What a refusal leaves: the destination keeps the buffers it has taken and starts again at the
      beginning of the present one; the register is the saved one. */
  function AfterRefusal(w: Writer, w': Writer): Writer {
    if w'.start == w.start || w'.start > |w'.out| then w
    else Writer(w'.out[..w'.start], w'.start, w'.free + (|w'.out| - w'.start), w'.grants, w.putBuffer, w.putBits)
  }

  lemma RoomKept(w: Writer, w': Writer)
    requires Later(w, w') && w'.Capacity() == w.Capacity()
    ensures AfterRefusal(w, w').Capacity() == w.Capacity()
  {
  }

  /** A refusal leaves the state as it was, just if the destination has no buffer beyond the present one:
      a suspending destination. */
  lemma RefusalRepeats(w: Writer, w': Writer, pre: seq<byte>, b: seq<bool>)
    requires Holds(w, pre, b) && Later(w, w') && w'.Spent()
    ensures w.grants == [] ==> AfterRefusal(w, w') == w
    ensures w.grants != [] ==> |AfterRefusal(w, w').out| > |w.out| && !Holds(AfterRefusal(w, w'), pre, b)
    ensures AfterRefusal(w, w').start == w'.start && (w'.start == w.start <==> w.grants == [])
  {
    SpentMoved(w, w');
  }

  class HuffEncoder {
    const c: Coder
    const dcTbls: seq<CDerived>
    const acTbls: seq<CDerived>
    const order: seq<nat>
    const restartInterval: nat

    /** The destination and the saved register, and saved.last_dc_val. */
    var w: Writer
    var lastDc: seq<int>
    var restartsToGo: nat
    var nextRestartNum: nat

    /** The MCUs of the finished segments and of the current one. */
    ghost var past: seq<seq<Mcu>>
    ghost var now: seq<Mcu>

    ghost predicate Represents()
      reads this
    {
      && Equipped(c, dcTbls, acTbls) && NaturalOrder(order)
      && (forall i :: 0 <= i < |past| ==> SendAll(c, Flat(past[i])).ok)
      && SendAll(c, Flat(now)).ok && lastDc == SendAll(c, Flat(now)).last
      && Holds(w, Marked(McuSegments(c, past)), SendAll(c, Flat(now)).bits)
    }

    /** The bits of the current segment and the predictions, from the coefficients. */
    ghost predicate Spelt()
      reads this
    {
      && ValidCoder(c) && |lastDc| == MAX_COMPS_IN_SCAN
      && Holds(w, Marked(McuSegments(c, past)), McuGrammar.Spelt(c, Flat(now)))
      && (!c.mode.DcRefine? ==> forall ci: component :: lastDc[ci] == McuGrammar.LastDc(c.mode, Flat(now), ci))
    }

    lemma Speaks()
      requires Represents()
      ensures Spelt()
    {
      hide Legal, Encodes, Holds, SendAll, Flat, McuSegments, Marked, McuGrammar.Spelt, McuGrammar.LastDc, NaturalOrder, SmallSymbols;
      McuGrammar.SegmentSpelt(c, Flat(now));
    }

    ghost predicate Valid()
      reads this
    {
      && Represents() && nextRestartNum == |past| % 8
      && (if restartInterval == 0 then past == [] else restartsToGo + |now| == restartInterval)
      && forall i :: 0 <= i < |past| ==> |past[i]| == restartInterval
    }

    /** start_pass_huff */
    constructor (c: Coder, dcTbls: seq<CDerived>, acTbls: seq<CDerived>, order: seq<nat>, restartInterval: nat, free: room, grants: seq<room>)
      requires Equipped(c, dcTbls, acTbls) && NaturalOrder(order)
      ensures Valid() && past == [] && now == [] && this.c == c && this.order == order && this.restartInterval == restartInterval
      ensures w == Writer([], 0, free, grants, 0, 0)
    {
      this.c, this.dcTbls, this.acTbls, this.order, this.restartInterval := c, dcTbls, acTbls, order, restartInterval;
      w := Writer([], 0, free, grants, 0, 0);
      lastDc, restartsToGo, nextRestartNum := NoLast, restartInterval, 0;
      past, now := [], [];
      new;
      HoldsNothing(w, []);
      assert McuSegments(c, past) == [];
    }

    /** The loop over the blocks of an MCU, on the working state. */
    method EncodeBlocks(blocks: seq<array<int>>, cur0: Writer, last0: seq<int>, ghost pre: seq<byte>, ghost base: seq<Item>)
      returns (status: Status, cur: Writer, last: seq<int>)
      requires Equipped(c, dcTbls, acTbls) && NaturalOrder(order) && |blocks| == |c.membership|
      requires forall i :: 0 <= i < |blocks| ==> blocks[i].Length == 64
      requires SendAll(c, base).ok && last0 == SendAll(c, base).last && Holds(cur0, pre, SendAll(c, base).bits)
      ensures cur.Capacity() == cur0.Capacity() && (status.Refused? ==> cur.Spent()) && Later(cur0, cur)
      ensures var e := SendAll(c, base + ItemsOf(c.membership, order, Contents(blocks), |blocks|));
        && (status.Fine? ==> e.ok && last == e.last && Holds(cur, pre, e.bits))
        && (status.MissingCode? || status.BadCoef? ==> !e.ok)
    {
      hide Legal, Encodes, NaturalOrder, Holds, BlockOk, BlockBits, Zigzag, SmallSymbols, ItemsOf, SendAll, Writer.Capacity, Writer.Spent, Later;
      status, cur, last := Fine, cur0, last0;
      ghost var raw := Contents(blocks);
      ghost var items := base;
      ItemsNone(c.membership, order, raw);
      assert base + [] == base;
      LaterSelf(cur0, pre, SendAll(c, base).bits);
      for blkn := 0 to |c.membership|
        invariant status.Fine? && items == base + ItemsOf(c.membership, order, raw, blkn)
        invariant SendAll(c, items).ok && last == SendAll(c, items).last && Holds(cur, pre, SendAll(c, items).bits)
        invariant cur.Capacity() == cur0.Capacity() && Later(cur0, cur)
      {
        var ci := c.membership[blkn];
        var block := blocks[blkn];
        ghost var cur1, x := cur, Item(ci, Zigzag(order, block[..]));
        ghost var rest := ItemsSplit(c.membership, order, raw, blkn);
        SendNext(c, items, x);
        assert base + ItemsOf(c.membership, order, raw, blkn + 1) == items + [x];
        status, cur := EncodeItem(cur, c, dcTbls, acTbls, block, order, ci, last[ci], pre, SendAll(c, items).bits);
        LaterTrans(cur0, cur1, cur);
        if !status.Fine? {
          SendPrefix(c, items + [x], rest);
          assert items + [x] + rest == base + ItemsOf(c.membership, order, raw, |blocks|);
          return;
        }
        items := items + [x];
        ZigzagDc(order, block[..]);
        if !c.mode.DcRefine? {
          last := last[ci := if c.mode.Whole? then block[0] else Shr(block[0], c.mode.al)];
        }
      }
    }

    /** The restart marker, if one is due, and the blocks, on the working state. */
    method WorkMcu(blocks: seq<array<int>>, due: bool, ghost done: seq<seq<Mcu>>, ghost base: seq<Mcu>)
      returns (status: Status, cur: Writer, last: seq<int>)
      requires Represents() && nextRestartNum == |past| % 8
      requires |blocks| == |c.membership| && forall i :: 0 <= i < |blocks| ==> blocks[i].Length == 64
      requires if due then done == past + [now] && base == [] else done == past && base == now
      ensures cur.Capacity() == w.Capacity() && Later(w, cur) && (status.Refused? ==> cur.Spent())
      ensures var e := SendAll(c, Flat(base + [ItemsOf(c.membership, order, Contents(blocks), |blocks|)]));
        && (status.Fine? ==> e.ok && last == e.last && Holds(cur, Marked(McuSegments(c, done)), e.bits))
        && (status.MissingCode? || status.BadCoef? ==> !e.ok)
    {
      hide ValidCoder, Tables, Legal, Encodes, NaturalOrder, Holds, SendAll, SmallSymbols, Writer.Capacity, Writer.Spent, Later, Zigzag, Marked, ItemsOf, Contents, Flat, McuSegments;
      cur, last := w, lastDc;
      ghost var pre, b := Marked(McuSegments(c, past)), SendAll(c, Flat(now)).bits;
      LaterSelf(w, pre, b);
      if due {
        SegmentsNext(c, past, now);
        status, cur := EmitMarker(cur, nextRestartNum, McuSegments(c, past), b);
        if !status.Fine? { return; }
        last := NoLast;
        SendNone(c);
        FlatNone();
      }
      ghost var cur1 := cur;
      status, cur, last := EncodeBlocks(blocks, cur, last, Marked(McuSegments(c, done)), Flat(base));
      FlatNext(base, ItemsOf(c.membership, order, Contents(blocks), |blocks|));
      LaterTrans(w, cur1, cur);
    }

    /** encode_mcu_huff, encode_mcu_DC_first and encode_mcu_DC_refine.  The call either adds its MCU to
        the scan, or stops for a code or coefficient that cannot be sent, or is refused; a refused call
        can be made again just if the destination had no buffer beyond the present one. */
    method EncodeMcu(blocks: seq<array<int>>) returns (status: Status)
      requires Valid() && |blocks| == |c.membership| && forall i :: 0 <= i < |blocks| ==> blocks[i].Length == 64
      modifies this
      ensures w.Capacity() == old(w.Capacity())
      ensures
        var items := ItemsOf(c.membership, order, Contents(blocks), |blocks|);
        var due := restartInterval > 0 && old(restartsToGo) == 0;
        && (status.Fine? ==> Valid())
        && (status.Fine? ==> past == (if due then old(past) + [old(now)] else old(past)))
        && (status.Fine? ==> now == (if due then [items] else old(now) + [items]))
        && (status.MissingCode? || status.BadCoef? ==> !SendAll(c, Flat(if due then [items] else old(now) + [items])).ok)
      ensures status.Fine? ==> Spelt()
      ensures status.Refused? ==> past == old(past) && now == old(now) && (Valid() <==> old(w.grants) == [])
      ensures status.Refused? ==> (w == old(w) <==> old(w.grants) == []) && (w.start == old(w.start) <==> old(w.grants) == [])
      ensures status.Refused? ==> lastDc == old(lastDc) && restartsToGo == old(restartsToGo) && nextRestartNum == old(nextRestartNum)
    {
      hide ValidCoder, Tables, NaturalOrder, Holds, SendAll, Writer.Capacity, Writer.Spent, Later, Marked, AfterRefusal, ItemsOf, Contents, Flat, McuSegments, HuffEncoder.Spelt;
      var due := restartInterval > 0 && restartsToGo == 0;
      ghost var done, base := if due then past + [now] else past, if due then [] else now;
      var cur, last;
      status, cur, last := WorkMcu(blocks, due, done, base);
      ghost var items := ItemsOf(c.membership, order, Contents(blocks), |blocks|);
      assert [] + [items] == [items];
      if !status.Fine? {
        RoomKept(w, cur);
        if status.Refused? { RefusalRepeats(w, cur, Marked(McuSegments(c, past)), SendAll(c, Flat(now)).bits); }
        w := AfterRefusal(w, cur);
        return;
      }
      SentBefore(past, now);
      w, lastDc := cur, last;
      past, now := done, base + [items];
      CountDown();
      Speaks();
    }

    lemma SentBefore(past: seq<seq<Mcu>>, now: seq<Mcu>)
      requires ValidCoder(c) && SendAll(c, Flat(now)).ok && forall i :: 0 <= i < |past| ==> SendAll(c, Flat(past[i])).ok
      ensures forall i :: 0 <= i <= |past| ==> SendAll(c, Flat((past + [now])[i])).ok
    {
      hide ValidCoder, SendAll, Flat;
    }

    /** The restart counters after an MCU, which has started a segment if none was left to go. */
    method CountDown()
      requires Represents() && forall i :: 0 <= i < |past| ==> |past[i]| == restartInterval
      requires if restartInterval == 0 then past == [] else if restartsToGo == 0 then |past| >= 1 && |now| == 1 else restartsToGo + |now| == restartInterval + 1
      requires nextRestartNum == (if restartInterval > 0 && restartsToGo == 0 then |past| - 1 else |past|) % 8
      modifies this`restartsToGo, this`nextRestartNum
      ensures Valid()
    {
      hide ValidCoder, Tables, NaturalOrder, Holds, SendAll, Marked, Flat, McuSegments;
      if restartInterval > 0 {
        if restartsToGo == 0 {
          restartsToGo := restartInterval;
          nextRestartNum := (nextRestartNum + 1) % 8;
        }
        restartsToGo := restartsToGo - 1;
      }
    }

    /** finish_pass_huff: the output is the whole scan. */
    method FinishPass() returns (status: Status)
      requires Valid()
      modifies this
      ensures past == old(past) && now == old(now)
      ensures status.Fine? ==> w.out == ScanBytes(McuSegments(c, past + [now]))
      ensures status.Fine? ==> forall i :: 0 <= i <= |past| ==> SendAll(c, Flat((past + [now])[i])).ok
      ensures status.Fine? <==> old(w.Capacity()) > |ScanBytes(McuSegments(c, past + [now]))|
    {
      hide Legal, Encodes, NaturalOrder, Holds, SendAll, SmallSymbols, Writer.Capacity, Marked, Flat, McuSegments;
      status, w := FlushBits(w, Marked(McuSegments(c, past)), SendAll(c, Flat(now)).bits);
      SegmentsNext(c, past, now);
      ghost var all := McuSegments(c, past + [now]);
      assert all[..|past|] == McuSegments(c, past);
    }

    /** The caller has provided more room: a refused call that left the state alone may be repeated. */
    method Refill(free: room, grants: seq<room>)
      requires Valid()
      modifies this`w
      ensures Valid() && w == old(w).(free := free, grants := grants)
    {
      hide Legal, Encodes, NaturalOrder, SendAll, SmallSymbols, Marked, Flat, McuSegments;
      w := w.(free := free, grants := grants);
    }
  }

  lemma SegmentsNext(c: Coder, segs: seq<seq<Mcu>>, s: seq<Mcu>)
    requires ValidCoder(c)
    ensures McuSegments(c, segs + [s]) == McuSegments(c, segs) + [SendAll(c, Flat(s)).bits] && |McuSegments(c, segs)| == |segs|
  {
  }

  ghost function Contents(blocks: seq<array<int>>): (raw: seq<seq<int>>)
    reads blocks
    requires forall i :: 0 <= i < |blocks| ==> blocks[i].Length == 64
    ensures |raw| == |blocks| && forall i :: 0 <= i < |raw| ==> |raw[i]| == 64
  {
    seq(|blocks|, i requires 0 <= i < |blocks| reads blocks => blocks[i][..])
  }
}
