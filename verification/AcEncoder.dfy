// encode_mcu_AC_first and encode_mcu_AC_refine (jcphuff.c) as they run: the register, EOBRUN, the
// correction-bit buffer and the restart counters are fields, and every method is tied to the
// bit-string description of the scan in AcScan.
module AcEncoder {
  import opened Wrappers
  import opened Bits
  import opened HuffmanTable
  import opened DerivedTables
  import opened BitWriter
  import opened Segments
  import opened Coefficients
  import opened AcBlocks
  import opened AcScan
  import opened AcGrammar
  import opened ZigzagOrder

  /** What is known of the writer during a segment: it holds b after the finished segments. */
  ghost predicate Out(w: Writer, segs: seq<seq<bool>>, b: seq<bool>) {
    Holds(w, Marked(segs), b)
  }

  /** A table the encoder has expanded. */
  ghost predicate Tables(h: Table, tbl: CDerived) {
    Legal(h) && Encodes(h, tbl, Count(h))
  }

  lemma TableCodes(h: Table, tbl: CDerived, s: nat)
    requires Tables(h, tbl) && s < 256
    ensures |tbl.ehufco| == |tbl.ehufsi| == 256 && tbl.ehufsi[s] <= 16 && (tbl.ehufsi[s] == 0 <==> !Listed(h, s))
    ensures SymBits(h, s) == Bin(tbl.ehufco[s], tbl.ehufsi[s])
  {
  }

  /** emit_symbol */
  method EmitSymbol(w: Writer, tbl: CDerived, s: nat, ghost h: Table, ghost pre: seq<byte>, ghost b: seq<bool>)
    returns (status: Status, w': Writer)
    requires Tables(h, tbl) && s < 256 && Holds(w, pre, b)
    ensures (status.MissingCode? <==> !Listed(h, s)) && !status.BadCoef?
    ensures status.Fine? ==> Holds(w', pre, b + SymBits(h, s))
    ensures w'.Capacity() == w.Capacity() && (status.Refused? ==> w'.Spent()) && Later(w, w')
  {
    hide Legal, Encodes, Bytes, Left, Bin, Holds, Listed, SymBits;
    TableCodes(h, tbl, s);
    status, w' := EmitBits(w, tbl.ehufco[s], tbl.ehufsi[s], pre, b);
  }

  lemma OneBit(v: int)
    ensures Bin(v, 1) == [v % 2 == 1]
  {
    ShiftNone(v / 2);
  }

  // ---------- the correction-bit buffer ----------

  /** Entries i up to j of the buffer as bits. */
  ghost function Kept(buffer: seq<nat>, i: nat, j: nat): (b: seq<bool>)
    requires i <= j <= |buffer|
    ensures |b| == j - i
  {
    seq(j - i, k requires 0 <= k < j - i => buffer[i + k] % 2 == 1)
  }

  /** emit_buffered_bits */
  method EmitBufferedBits(w: Writer, buffer: array<nat>, start: nat, n: nat, ghost pre: seq<byte>, ghost b: seq<bool>)
    returns (status: Status, w': Writer)
    requires start + n <= buffer.Length && Holds(w, pre, b)
    ensures !status.MissingCode? && !status.BadCoef?
    ensures status.Fine? ==> Holds(w', pre, b + Kept(buffer[..], start, start + n))
    ensures w'.Capacity() == w.Capacity() && (status.Refused? ==> w'.Spent())
  {
    hide Bytes, Left, Holds;
    var nbits := n;
    status, w' := Fine, w;
    ghost var sent: seq<bool> := [];
    assert b + sent == b;
    while nbits > 0
      invariant 0 <= nbits <= n && sent == Kept(buffer[..], start, start + (n - nbits))
      invariant status.Fine? && Holds(w', pre, b + sent) && w'.Capacity() == w.Capacity()
    {
      var bit := buffer[start + (n - nbits)];
      OneBit(bit);
      assert b + sent + [bit % 2 == 1] == b + (sent + [bit % 2 == 1]);
      status, w' := EmitBits(w', bit, 1, pre, b + sent);
      if !status.Fine? { return; }
      sent := sent + [bit % 2 == 1];
      nbits := nbits - 1;
    }
  }

  /** The shifting loop that finds the highest one bit. */
  method HighestBit(v: nat) returns (nbits: nat)
    requires v > 0
    ensures NBits(v) == nbits + 1
  {
    nbits := 0;
    var temp: nat := v / 2;
    while temp > 0
      invariant NBits(v) == 1 + nbits + NBits(temp)
    {
      nbits := nbits + 1;
      temp := temp / 2;
    }
  }

  /** The absolute value after the point transform. */
  method Magnitude(coef: int, al: nat) returns (temp: nat)
    ensures temp == Mag(coef, al)
  {
    temp := if coef < 0 then -coef else coef;
    ShrZero(temp, al);
    temp := Shr(temp, al);
  }

  // ---------- the encoder object ----------

  class PhuffEncoder {
    const h: Table
    const tbl: CDerived
    const p: Params
    const order: seq<nat>
    const restartInterval: nat
    const bitBuffer: array<nat>

    var w: Writer
    var eobRun: nat
    var be: nat
    var restartsToGo: nat
    var nextRestartNum: nat

    /** The blocks of the finished segments and of the current one. */
    ghost var past: seq<seq<Block>>
    ghost var now: seq<Block>

    ghost predicate Static()
    {
      Tables(h, tbl) && AcScan.Valid(p) && NaturalOrder(order) && bitBuffer.Length == MAX_CORR_BITS
    }

    /** The output, register, run and buffer are those that the blocks so far lead to. */
    ghost predicate Represents()
      reads this, bitBuffer
    {
      && Static()
      && var e := EncodeScan(h, p, now);
      && e.ok && eobRun == e.run && be == |e.be| <= MAX_CORR_BITS && Kept(bitBuffer[..], 0, be) == e.be
      && Holds(w, Marked(SegmentsOf(h, p, past)), e.bits)
      && forall i :: 0 <= i < |past| ==> Flush(h, EncodeScan(h, p, past[i])).ok
    }

    /** ... and the restart counters agree with them: every finished segment is one interval long. */
    ghost predicate Valid()
      reads this, bitBuffer
    {
      && Represents() && nextRestartNum == |past| % 8
      && (if restartInterval == 0 then past == [] else restartsToGo + |now| == restartInterval)
      && forall i :: 0 <= i < |past| ==> |past[i]| == restartInterval
    }

    /** The words of the current segment have been sent, and the open run is pending. */
    ghost predicate Spelt()
      reads this, bitBuffer
      requires Static() && be <= MAX_CORR_BITS
    {
      && Holds(w, Marked(SegmentsOf(h, p, past)), Spell(h, Sent(p, now)))
      && eobRun == Open(p, now).0 && Kept(bitBuffer[..], 0, be) == Open(p, now).1
    }

    /** start_pass_phuff */
    constructor (h: Table, tbl: CDerived, p: Params, order: seq<nat>, restartInterval: nat, free: room, grants: seq<room>)
      requires Tables(h, tbl) && AcScan.Valid(p) && NaturalOrder(order)
      ensures Valid() && past == [] && now == [] && fresh(bitBuffer)
      ensures this.h == h && this.p == p && this.order == order && this.restartInterval == restartInterval
    {
      this.h, this.tbl, this.p, this.order, this.restartInterval := h, tbl, p, order, restartInterval;
      bitBuffer := new nat[MAX_CORR_BITS](_ => 0);
      w := Writer([], 0, free, grants, 0, 0);
      eobRun, be, restartsToGo, nextRestartNum := 0, 0, restartInterval, 0;
      past, now := [], [];
      new;
      HoldsNothing(w, []);
      assert SegmentsOf(h, p, past) == [];
    }

    /** emit_eobrun.  nbits is the position of the highest one bit of EOBRUN. */
    method EmitEobrun(ghost pre: seq<byte>, ghost e: Enc) returns (status: Status)
      requires Static() && Holds(w, pre, e.bits) && eobRun == e.run <= MAX_EOBRUN
      requires be == |e.be| <= MAX_CORR_BITS && Kept(bitBuffer[..], 0, be) == e.be
      modifies this`w, this`eobRun, this`be
      ensures w.Capacity() == old(w.Capacity()) && (status.Refused? ==> w.Spent())
      ensures !status.BadCoef? && (status.MissingCode? ==> !Flush(h, e).ok)
      ensures status.Fine? ==> Holds(w, pre, Flush(h, e).bits)
      ensures status.Fine? ==> (e.ok ==> Flush(h, e).ok)
      ensures status.Fine? ==> if e.run == 0 then eobRun == old(eobRun) && be == old(be) else eobRun == 0 && be == 0
    {
      hide Legal, Encodes, Writer.Capacity, Writer.Spent, Later, Holds, NaturalOrder, Listed, SymBits, Band, Bin, Pow2, NBits;
      status := Fine;
      if eobRun > 0 {
        var nbits := HighestBit(eobRun);
        Pow2Values();
        NBitsBound(eobRun, 15);
        if nbits > 14 { return MissingCode; }
        status, w := EmitSymbol(w, tbl, 16 * nbits, h, pre, e.bits);
        if !status.Fine? { return; }
        ghost var sym := SymBits(h, 16 * nbits);
        if nbits > 0 {
          status, w := EmitBits(w, eobRun, nbits, pre, e.bits + sym);
          if !status.Fine? { return; }
        } else {
          ShiftNone(eobRun);
          assert e.bits + sym == e.bits + sym + [];
        }
        assert e.bits + sym + Bin(eobRun, nbits) == e.bits + EobBits(h, e.run);
        eobRun := 0;
        status, w := EmitBufferedBits(w, bitBuffer, 0, be, pre, e.bits + EobBits(h, e.run));
        assert e.bits + EobBits(h, e.run) + e.be == e.bits + (EobBits(h, e.run) + e.be);
        be := 0;
      }
    }

    /** Between two coefficients of a block: `e0` is the state before the block, `l` what the block
        has led to so far; `br` correction bits wait at `off`. */
    ghost predicate InBlock(pre: seq<byte>, e0: Enc, l: Local, br: nat, off: nat)
      reads this, bitBuffer
    {
      && Static() && e0.run < MAX_EOBRUN && |e0.be| <= MAX_CORR_BITS - 63 && (e0.run == 0 ==> e0.be == [])
      && e0.ok && l.ok && (l.any ==> Flush(h, e0).ok)
      && off + br <= MAX_CORR_BITS && Kept(bitBuffer[..], off, off + br) == l.br
      && Holds(w, pre, if l.any then Flush(h, e0).bits + l.c else e0.bits)
      && (if l.any then eobRun == 0 && be == 0 && off == 0
          else eobRun == e0.run && be == off == |e0.be| && Kept(bitBuffer[..], 0, off) == e0.be && l.c == [])
    }

    /** emit_eobrun, a symbol, the sign bit that may follow it, and the waiting correction bits. */
    method EmitCoded(sym: nat, sign: Option<nat>, br: nat, off: nat, ghost pre: seq<byte>, ghost e0: Enc, ghost l: Local)
      returns (status: Status)
      requires InBlock(pre, e0, l, br, off) && sym < 256
      modifies this`w, this`eobRun, this`be
      ensures w.Capacity() == old(w.Capacity()) && (status.Refused? ==> w.Spent())
      ensures !status.BadCoef? && (status.MissingCode? ==> !Flush(h, e0).ok || !Listed(h, sym))
      ensures status.Fine? ==> Listed(h, sym)
      ensures status.Fine? ==> InBlock(pre, e0,
        Local(l.c + (SymBits(h, sym) + ((if sign.Some? then [sign.value % 2 == 1] else []) + l.br)), true, true, 0, []), 0, 0)
    {
      hide Legal, Encodes, Writer.Capacity, Writer.Spent, Later, Holds, NaturalOrder, Listed, SymBits, Band, Bin, Pow2, NBits, Flush;
      ghost var f := Flush(h, e0);
      assert !l.any ==> f.bits + l.c == f.bits;
      NothingToFlush(h, f.bits + l.c);
      status := EmitEobrun(pre, if l.any then Enc(f.bits + l.c, true, 0, []) else e0);
      if !status.Fine? { return; }
      status, w := EmitSymbol(w, tbl, sym, h, pre, f.bits + l.c);
      if !status.Fine? { return; }
      ghost var b := f.bits + l.c + SymBits(h, sym);
      ghost var x := if sign.Some? then [sign.value % 2 == 1] else [];
      if sign.Some? {
        OneBit(sign.value);
        status, w := EmitBits(w, sign.value, 1, pre, b);
        if !status.Fine? { return; }
      } else {
        assert b + x == b;
      }
      status, w := EmitBufferedBits(w, bitBuffer, off, br, pre, b + x);
      assert b + x + l.br == f.bits + (l.c + (SymBits(h, sym) + (x + l.br)));
      assert Kept(bitBuffer[..], 0, 0) == [];
    }

    /** The pre-pass of encode_mcu_AC_refine: magnitudes, and the last newly nonzero coefficient. */
    method AbsValues(block: array<int>, ghost z: Block) returns (absvalues: array<nat>, eob: nat)
      requires Static() && block.Length == 64 && z == Zigzag(order, block[..])
      ensures fresh(absvalues) && absvalues.Length == 64 && eob == EobAt(z, p.al, p.ss, p.se + 1)
      ensures forall k :: p.ss <= k <= p.se ==> absvalues[k] == Mag(z[k], p.al)
    {
      hide Legal, Encodes, Mag;
      absvalues := new nat[64];
      eob := 0;
      for k := p.ss to p.se + 1
        invariant eob == EobAt(z, p.al, p.ss, k)
        invariant forall i :: p.ss <= i < k ==> absvalues[i] == Mag(z[i], p.al)
      {
        assert z[k] == block[order[k]];
        var temp := Magnitude(block[order[k]], p.al);
        absvalues[k] := temp;
        if temp == 1 { eob := k; }
      }
    }

    /** The run-length-16 codes due before coefficient k. */
    method EmitZrls(k: nat, eob: nat, r0: nat, br0: nat, off0: nat, ghost pre: seq<byte>, ghost e0: Enc, ghost l0: Local)
      returns (status: Status, r: nat, br: nat, off: nat)
      requires InBlock(pre, e0, l0, br0, off0) && r0 == l0.r
      modifies this`w, this`eobRun, this`be
      ensures w.Capacity() == old(w.Capacity()) && (status.Refused? ==> w.Spent())
      ensures !status.BadCoef?
      ensures status.MissingCode? ==> RefineZrl(h, l0, k, eob).any && (!Flush(h, e0).ok || !RefineZrl(h, l0, k, eob).ok)
      ensures status.Fine? ==> var l := RefineZrl(h, l0, k, eob);
        InBlock(pre, e0, l, br, off) && r == l.r && (k <= eob ==> r <= 15)
    {
      hide Legal, Encodes, Writer.Capacity, Writer.Spent, Later, Holds, NaturalOrder, Listed, SymBits, Band, ZrlBits;
      status, r, br, off := Fine, r0, br0, off0;
      ghost var l := l0;
      ghost var goal := RefineZrl(h, l0, k, eob);
      while r > 15 && k <= eob
        invariant status.Fine? && r == l.r && w.Capacity() == old(w.Capacity())
        invariant InBlock(pre, e0, l, br, off)
        invariant l == l0 || (l.any && l.br == [])
        invariant RefineZrl(h, l, k, eob) == goal
      {
        ZrlOnce(h, l, k, eob);
        status := EmitCoded(ZRL, None, br, off, pre, e0, l);
        if !status.Fine? { return; }
        assert [] + l.br == l.br;
        l := Local(l.c + (SymBits(h, ZRL) + l.br), l.ok, true, l.r - 16, []);
        r, br, off := r - 16, 0, 0;
      }
    }

    /** Hold back a correction bit. */
    method Hold(bit: nat, br: nat, off: nat, ghost pre: seq<byte>, ghost e0: Enc, ghost l: Local)
      requires InBlock(pre, e0, l, br, off) && off + br < MAX_CORR_BITS
      modifies bitBuffer
      ensures InBlock(pre, e0, l.(br := l.br + [bit % 2 == 1]), br + 1, off)
    {
      hide Legal, Encodes, Writer.Capacity, Writer.Spent, Later, Band, Holds, NaturalOrder, Flush;
      ghost var was := bitBuffer[..];
      bitBuffer[off + br] := bit % 2;
      assert Kept(bitBuffer[..], off, off + br + 1) == Kept(was, off, off + br) + [bit % 2 == 1];
      assert Kept(bitBuffer[..], 0, off) == Kept(was, 0, off);
    }

    /** One trip of the main loop of encode_mcu_AC_refine. */
    method CodeCoefficient(temp: nat, coef: int, k: nat, eob: nat, r0: nat, br0: nat, off0: nat,
                           ghost pre: seq<byte>, ghost e0: Enc, ghost l: Local)
      returns (status: Status, r: nat, br: nat, off: nat)
      requires InBlock(pre, e0, l, br0, off0) && r0 == l.r && br0 <= 62
      requires temp == Mag(coef, p.al) && (temp == 1 ==> k <= eob)
      modifies this`w, this`eobRun, this`be, bitBuffer
      ensures w.Capacity() == old(w.Capacity()) && (status.Refused? ==> w.Spent())
      ensures !status.BadCoef?
      ensures status.MissingCode? ==>
        var l' := RefineStep(h, l, coef, p.al, k, eob);
        l'.any && (!Flush(h, e0).ok || !l'.ok)
      ensures status.Fine? ==>
        var l' := RefineStep(h, l, coef, p.al, k, eob);
        InBlock(pre, e0, l', br, off) && r == l'.r && br == |l'.br|
    {
      hide Legal, Encodes, Writer.Capacity, Writer.Spent, Later, Holds, NaturalOrder, Listed, SymBits, Mag, Flush, ZrlBits, Kept, Band;
      status, r, br, off := Fine, r0, br0, off0;
      if temp == 0 {
        r := r + 1;
        return;
      }
      status, r, br, off := EmitZrls(k, eob, r, br, off, pre, e0, l);
      if !status.Fine? { return; }
      ghost var l1 := RefineZrl(h, l, k, eob);
      if temp > 1 {
        Hold(temp % 2, br, off, pre, e0, l1);
        br := br + 1;
      } else {
        var sign := if coef < 0 then 0 else 1;
        status := EmitCoded(16 * r + 1, Some(sign), br, off, pre, e0, l1);
        r, br, off := 0, 0, 0;
      }
    }

    /** The end of encode_mcu_AC_first and encode_mcu_AC_refine: count an EOB, force it out if need be. */
    method FinishBlock(r: nat, br: nat, off: nat, ghost pre: seq<byte>, ghost e0: Enc, ghost l: Local) returns (status: Status)
      requires InBlock(pre, e0, l, br, off) && r == l.r && br <= 63
      modifies this`w, this`eobRun, this`be
      ensures w.Capacity() == old(w.Capacity()) && (status.Refused? ==> w.Spent())
      ensures !status.BadCoef? && (status.MissingCode? ==> !EndBlock(h, e0, l).ok)
      ensures status.Fine? ==>
        var e' := EndBlock(h, e0, l);
        && e'.ok && eobRun == e'.run && be == |e'.be| <= MAX_CORR_BITS && Kept(bitBuffer[..], 0, be) == e'.be
        && Holds(w, pre, e'.bits)
    {
      hide Legal, Encodes, Writer.Capacity, Writer.Spent, Later, Holds, NaturalOrder, Listed, SymBits, Band, EobBits, EobSym;
      status := Fine;
      ghost var e := AddBlock(h, e0, l);
      assert Kept(bitBuffer[..], 0, 0) == [];
      assert Kept(bitBuffer[..], 0, off + br) == Kept(bitBuffer[..], 0, off) + Kept(bitBuffer[..], off, off + br);
      if r > 0 || br > 0 {
        eobRun := eobRun + 1;
        be := be + br;
        assert eobRun == e.run && be == |e.be| && Kept(bitBuffer[..], 0, be) == e.be;
        if eobRun == MAX_EOBRUN || be > MAX_CORR_BITS - 64 + 1 {
          status := EmitEobrun(pre, e);
        }
      }
    }

    lemma BlockCounts(z: Block, pre: seq<byte>, e0: Enc)
      requires InBlock(pre, e0, Start, 0, be)
      ensures var e' := EndBlock(h, e0, BlockCode(h, p, z)); Counted(p, z, eobRun, be, e'.run, |e'.be|)
    {
      hide Legal, EndBlock, BlockCode, Counted, Spell, Sendable, RunWords, Words, Rest, Quiet, Coded, Holds, Flush, Kept;
      EndSpelt(h, p, e0, z);
    }

    /** The body of encode_mcu_AC_refine for one block. */
    method EncodeBlockRefine(block: array<int>, ghost z: Block, ghost pre: seq<byte>, ghost e0: Enc) returns (status: Status)
      requires Static() && InBlock(pre, e0, Start, 0, be) && block.Length == 64 && z == Zigzag(order, block[..]) && p.kind.Refine?
      requires block as object != bitBuffer
      modifies this`w, this`eobRun, this`be, bitBuffer
      ensures w.Capacity() == old(w.Capacity()) && (status.Refused? ==> w.Spent())
      ensures var e' := EndBlock(h, e0, BlockCode(h, p, z));
        && !status.BadCoef? && (status.MissingCode? ==> !e'.ok)
        && (status.Fine? ==>
             && e'.ok && eobRun == e'.run && be == |e'.be| <= MAX_CORR_BITS && Kept(bitBuffer[..], 0, be) == e'.be
             && Holds(w, pre, e'.bits))
      ensures status.Fine? ==> Counted(p, z, old(eobRun), old(be), eobRun, be)
    {
      hide EndBlock, AddBlock, Flush, PhuffEncoder.InBlock, Counted, Legal, Encodes, Writer.Capacity, Writer.Spent, Later, Holds,
        Listed, SymBits, Mag, EobAt, RefineZrl, ZrlBits, Kept, EobBits, RefineStep, RefineUpTo, NBits, Bin;
      BlockCounts(z, pre, e0);
      var absvalues, eob := AbsValues(block, z);
      var r, br, off := 0, 0, be;
      status := Fine;
      ghost var l := Start;
      RefineNoStep(h, z, p.al, p.ss, eob);
      for k := p.ss to p.se + 1
        invariant status.Fine? && w.Capacity() == old(w.Capacity())
        invariant l == RefineUpTo(h, z, p.al, p.ss, eob, k) && r == l.r && br == |l.br|
        invariant InBlock(pre, e0, l, br, off)
        invariant forall i :: p.ss <= i <= p.se ==> absvalues[i] == Mag(z[i], p.al)
      {
        RefineHolds(h, z, p.al, p.ss, eob, k);
        RefineMono(h, z, p.al, p.ss, eob, k + 1, p.se + 1);
        if Mag(z[k], p.al) == 1 { EobLast(z, p.al, p.ss, p.se + 1, k); }
        RefineNextStep(h, z, p.al, p.ss, eob, k);
        ghost var next := RefineUpTo(h, z, p.al, p.ss, eob, k + 1);
        status, r, br, off := CodeCoefficient(absvalues[k], block[order[k]], k, eob, r, br, off, pre, e0, l);
        if !status.Fine? {
          if !status.Refused? { Spoiled(h, e0, BlockCode(h, p, z)); }
          return;
        }
        l := next;
      }
      RefineHolds(h, z, p.al, p.ss, eob, p.se + 1);
      status := FinishBlock(r, br, off, pre, e0, l);
    }

    /** The nonzero branch of the loop of encode_mcu_AC_first: pending EOB run, run-length-16 codes,
        the symbol, and the value bits. */
    method CodeNonzero(temp: nat, coef: int, r0: nat, off0: nat, ghost pre: seq<byte>, ghost e0: Enc, ghost l0: Local)
      returns (status: Status, off: nat)
      requires InBlock(pre, e0, l0, 0, off0) && r0 == l0.r && temp == Mag(coef, p.al) > 0
      modifies this`w, this`eobRun, this`be
      ensures w.Capacity() == old(w.Capacity()) && (status.Refused? ==> w.Spent())
      ensures status.MissingCode? || status.BadCoef? ==>
        var l' := FirstStep(h, l0, coef, p.al);
        l'.any && (!Flush(h, e0).ok || !l'.ok)
      ensures status.Fine? ==> InBlock(pre, e0, FirstStep(h, l0, coef, p.al), 0, off)
    {
      hide Legal, Encodes, Writer.Capacity, Writer.Spent, Later, Holds, NaturalOrder, Listed, SymBits, Mag, Flush, Kept, Band,
        NBits, Bin, ZrlBits, RefineZrl;
      var r, br;
      FirstZrls(h, l0);
      status, r, br, off := EmitZrls(0, 0, r0, 0, off0, pre, e0, l0);
      if !status.Fine? { return; }
      ghost var l := RefineZrl(h, l0, 0, 0);
      var nbits := HighestBit(temp);
      nbits := nbits + 1;
      if nbits > MAX_COEF_BITS { return BadCoef, off; }
      var temp2: int := if coef < 0 then -1 - temp else temp;
      status, off := EmitValue(16 * r + nbits, temp2, nbits, off, pre, e0, l);
      ghost var x := SymBits(h, 16 * r + nbits) + Bin(temp2, nbits);
      assert l0.c + ZrlBits(h, l0.r) + x == l0.c + (ZrlBits(h, l0.r) + x);
    }

    /** A symbol and the value bits that belong to it. */
    method EmitValue(sym: nat, code: int, nbits: nat, off0: nat, ghost pre: seq<byte>, ghost e0: Enc, ghost l: Local)
      returns (status: Status, off: nat)
      requires InBlock(pre, e0, l, 0, off0) && sym < 256 && 0 < nbits <= 16
      modifies this`w, this`eobRun, this`be
      ensures w.Capacity() == old(w.Capacity()) && (status.Refused? ==> w.Spent())
      ensures !status.BadCoef? && (status.MissingCode? ==> !Flush(h, e0).ok || !Listed(h, sym))
      ensures status.Fine? ==> Listed(h, sym)
      ensures status.Fine? ==> InBlock(pre, e0, Local(l.c + (SymBits(h, sym) + Bin(code, nbits)), true, true, 0, []), 0, off)
    {
      hide Legal, Encodes, Writer.Capacity, Writer.Spent, Later, Holds, NaturalOrder, Listed, SymBits, Flush, Kept, Band, Bin;
      off := 0;
      status := EmitCoded(sym, None, 0, off0, pre, e0, l);
      if !status.Fine? { return; }
      ghost var f, s, raw := Flush(h, e0).bits, SymBits(h, sym), Bin(code, nbits);
      assert l.br == [];
      assert l.c + (s + ([] + l.br)) == l.c + s;
      status, w := EmitBits(w, code, nbits, pre, f + (l.c + s));
      assert f + (l.c + s) + raw == f + (l.c + (s + raw));
    }

    lemma OneMoreZero(pre: seq<byte>, e0: Enc, l: Local, off: nat)
      requires InBlock(pre, e0, l, 0, off)
      ensures InBlock(pre, e0, l.(r := l.r + 1), 0, off)
    {
      hide Legal, Encodes, Holds, Flush;
    }

    /** The body of encode_mcu_AC_first for one block. */
    method EncodeBlockFirst(block: array<int>, ghost z: Block, ghost pre: seq<byte>, ghost e0: Enc) returns (status: Status)
      requires Static() && InBlock(pre, e0, Start, 0, be) && block.Length == 64 && z == Zigzag(order, block[..]) && !p.kind.Refine?
      requires block as object != bitBuffer
      modifies this`w, this`eobRun, this`be
      ensures w.Capacity() == old(w.Capacity()) && (status.Refused? ==> w.Spent())
      ensures var e' := EndBlock(h, e0, BlockCode(h, p, z));
        && (status.MissingCode? || status.BadCoef? ==> !e'.ok)
        && (status.Fine? ==>
             && e'.ok && eobRun == e'.run && be == |e'.be| <= MAX_CORR_BITS && Kept(bitBuffer[..], 0, be) == e'.be
             && Holds(w, pre, e'.bits))
      ensures status.Fine? ==> Counted(p, z, old(eobRun), old(be), eobRun, be)
    {
      hide FirstStep, FirstUpTo, Mag, NBits, Bin, EndBlock, AddBlock, Flush, PhuffEncoder.InBlock, Counted, Legal, Encodes,
        Writer.Capacity, Writer.Spent, Later, Holds, Listed, SymBits, ZrlBits, Kept, EobBits;
      BlockCounts(z, pre, e0);
      var r, off := 0, be;
      status := Fine;
      ghost var l := Start;
      FirstNoStep(h, z, p.al, p.ss);
      for k := p.ss to p.se + 1
        invariant status.Fine? && w.Capacity() == old(w.Capacity())
        invariant l == FirstUpTo(h, z, p.al, p.ss, k) && r == l.r
        invariant InBlock(pre, e0, l, 0, off)
      {
        FirstMono(h, z, p.al, p.ss, k + 1, p.se + 1);
        FirstNextStep(h, z, p.al, p.ss, k);
        assert z[k] == block[order[k]];
        ghost var next := FirstUpTo(h, z, p.al, p.ss, k + 1);
        var coef := block[order[k]];
        var temp := Magnitude(coef, p.al);
        if temp == 0 {
          OneMoreZero(pre, e0, l, off);
          r := r + 1;
        } else {
          status, off := CodeNonzero(temp, coef, r, off, pre, e0, l);
          if !status.Fine? {
            if !status.Refused? { Spoiled(h, e0, BlockCode(h, p, z)); }
            return;
          }
          r := 0;
        }
        l := next;
      }
      status := FinishBlock(r, 0, off, pre, e0, l);
    }

    /** emit_restart */
    method EmitRestart() returns (status: Status)
      requires Represents() && nextRestartNum == |past| % 8
      modifies this, bitBuffer
      ensures w.Capacity() == old(w.Capacity()) && (status.Refused? ==> w.Spent())
      ensures restartsToGo == old(restartsToGo) && nextRestartNum == old(nextRestartNum)
      ensures !status.BadCoef? && (status.MissingCode? ==> !Flush(h, EncodeScan(h, p, old(now))).ok)
      ensures status.Fine? ==> Represents() && past == old(past) + [old(now)] && now == []
    {
      hide Legal, Encodes, Writer.Capacity, Writer.Spent, Later, Holds, NaturalOrder, Flush, Listed, Marked, BlockCode, AddBlock;
      ghost var e := EncodeScan(h, p, now);
      ghost var segs := SegmentsOf(h, p, past);
      ScanBounds(h, p, now);
      status := EmitEobrun(Marked(segs), e);
      if !status.Fine? { return; }
      status, w := EmitMarker(w, nextRestartNum, segs, Flush(h, e).bits);
      if !status.Fine? { return; }
      eobRun, be := 0, 0;
      past, now := past + [now], [];
      assert SegmentsOf(h, p, past) == segs + [Flush(h, e).bits];
      assert Kept(bitBuffer[..], 0, 0) == [];
    }

    /** A block within the current segment. */
    method EncodeBlock(block: array<int>) returns (status: Status)
      requires Represents() && block.Length == 64 && block as object != bitBuffer
      modifies this`w, this`eobRun, this`be, this`now, bitBuffer
      ensures w.Capacity() == old(w.Capacity()) && (status.Refused? ==> w.Spent())
      ensures block[..] == old(block[..])
      ensures status.Fine? ==> Represents()
      ensures status.Fine? ==> now == old(now) + [Zigzag(order, old(block[..]))]
      ensures status.MissingCode? || status.BadCoef? ==> !EncodeScan(h, p, old(now) + [Zigzag(order, old(block[..]))]).ok
    {
      hide Legal, Encodes, Writer.Capacity, Writer.Spent, Later, Holds, NaturalOrder, Flush, BlockCode, AddBlock, Kept, Listed, Marked;
      ghost var z := Zigzag(order, block[..]);
      ghost var zs, pre, e0 := now + [z], Marked(SegmentsOf(h, p, past)), EncodeScan(h, p, now);
      assert zs[..|zs| - 1] == now;
      ScanBounds(h, p, now);
      BlockStarts(pre, e0);
      if p.kind.Refine? {
        status := EncodeBlockRefine(block, z, pre, e0);
      } else {
        status := EncodeBlockFirst(block, z, pre, e0);
      }
      if status.Fine? { now := zs; }
    }

    /** encode_mcu_AC_first and encode_mcu_AC_refine, as start_pass_phuff selects them. */
    method EncodeMcu(block: array<int>) returns (status: Status)
      requires Valid() && block.Length == 64 && block as object != bitBuffer
      modifies this, bitBuffer
      ensures w.Capacity() == old(w.Capacity()) && (status.Refused? ==> w.Spent())
      ensures block[..] == old(block[..])
      ensures status.Fine? ==> Valid()
      ensures status.Fine? ==>
        if restartInterval > 0 && old(restartsToGo) == 0
        then past == old(past) + [old(now)] && now == [Zigzag(order, old(block[..]))]
        else past == old(past) && now == old(now) + [Zigzag(order, old(block[..]))]
      ensures status.Fine? ==> Spelt()
      ensures status.Fine? && Since(p, now) < 32767 && |Waiting(p, now)| <= 937 ==>
        eobRun == Since(p, now) && be == |Waiting(p, now)|
      ensures status.MissingCode? || status.BadCoef? ==>
        if restartInterval > 0 && old(restartsToGo) == 0
        then !Flush(h, EncodeScan(h, p, old(now))).ok || !EncodeScan(h, p, [Zigzag(order, old(block[..]))]).ok
        else !EncodeScan(h, p, old(now) + [Zigzag(order, old(block[..]))]).ok
    {
      hide Legal, Encodes, Writer.Capacity, Writer.Spent, Later, Holds, NaturalOrder, Flush, EncodeScan, Kept, Marked, Zigzag,
        PhuffEncoder.Spelt, Since, Waiting;
      status := Fine;
      if restartInterval > 0 && restartsToGo == 0 {
        status := EmitRestart();
        if !status.Fine? { return; }
        assert [] + [Zigzag(order, block[..])] == [Zigzag(order, block[..])];
      }
      status := EncodeBlock(block);
      if !status.Fine? { return; }
      if restartInterval > 0 {
        if restartsToGo == 0 {
          restartsToGo := restartInterval;
          nextRestartNum := (nextRestartNum + 1) % 8;
        }
        restartsToGo := restartsToGo - 1;
      }
      Speaks();
    }

    lemma Speaks()
      requires Represents()
      ensures Spelt()
      ensures Since(p, now) < 32767 && |Waiting(p, now)| <= 937 ==> eobRun == Since(p, now) && be == |Waiting(p, now)|
    {
      hide Legal, EncodeScan, Since, Waiting, Holds, Sent, Spell, Flush, Marked;
      ScanSpelt(h, p, now);
      if Since(p, now) < 32767 && |Waiting(p, now)| <= 937 { OpenSince(p, now); }
    }

    lemma BlockStarts(pre: seq<byte>, e0: Enc)
      requires Static() && Holds(w, pre, e0.bits) && e0.ok && eobRun == e0.run && be == |e0.be|
      requires e0.run < MAX_EOBRUN && |e0.be| <= MAX_CORR_BITS - 63 && (e0.run == 0 ==> e0.be == [])
      requires Kept(bitBuffer[..], 0, be) == e0.be
      ensures InBlock(pre, e0, Start, 0, be)
    {
      assert Kept(bitBuffer[..], be, be) == [];
    }

    /** finish_pass_phuff: the output is the whole scan, segment by segment. */
    method FinishPass() returns (status: Status)
      requires Valid()
      modifies this, bitBuffer
      ensures w.Capacity() == old(w.Capacity()) && (status.Refused? ==> w.Spent())
      ensures past == old(past) && now == old(now)
      ensures status.Fine? ==> w.out == ScanBytes(SegmentsOf(h, p, past + [now]))
      ensures status.Fine? ==> forall i :: 0 <= i <= |past| ==> Flush(h, EncodeScan(h, p, (past + [now])[i])).ok
    {
      hide Legal, Encodes, Writer.Capacity, Writer.Spent, Later, Holds, NaturalOrder, Flush, Listed, Marked, BlockCode, AddBlock;
      ghost var e, segs := EncodeScan(h, p, now), SegmentsOf(h, p, past);
      ScanBounds(h, p, now);
      status := EmitEobrun(Marked(segs), e);
      if !status.Fine? { return; }
      status, w := FlushBits(w, Marked(segs), Flush(h, e).bits);
      ghost var all := SegmentsOf(h, p, past + [now]);
      assert all[..|past|] == segs && all[|past|] == Flush(h, e).bits;
    }
  }

  /** A block that cannot be sent spoils the scan. */
  lemma Spoiled(h: Table, e: Enc, l: Local)
    requires Legal(h) && l.any && (!Flush(h, e).ok || !l.ok)
    ensures !EndBlock(h, e, l).ok
  {
    hide Legal, Listed, EobBits;
  }

  lemma NothingToFlush(h: Table, c: seq<bool>)
    requires Legal(h)
    ensures Flush(h, Enc(c, true, 0, [])) == Enc(c, true, 0, [])
  {
  }

  /** In a first scan no correction bits wait, and the loop sends exactly the run-length-16 codes. */
  lemma FirstZrls(h: Table, l: Local)
    requires Legal(h) && l.br == []
    ensures var l' := RefineZrl(h, l, 0, 0);
      l'.c == l.c + ZrlBits(h, l.r) && l'.r == l.r % 16 && l'.br == []
      && (l'.ok <==> l.ok && (l.r > 15 ==> Listed(h, ZRL)))
  {
    hide Legal, Listed, SymBits;
    if l.r > 15 { assert [] + ZrlBits(h, l.r - 16) == ZrlBits(h, l.r - 16); }
  }

  lemma FirstNoStep(h: Table, z: Block, al: nat, ss: nat)
    requires Legal(h) && ss <= 64
    ensures FirstUpTo(h, z, al, ss, ss) == Start
  {
  }

  lemma RefineNoStep(h: Table, z: Block, al: nat, ss: nat, eob: nat)
    requires Legal(h) && ss <= 64
    ensures RefineUpTo(h, z, al, ss, eob, ss) == Start
  {
  }

  lemma RefineNextStep(h: Table, z: Block, al: nat, ss: nat, eob: nat, k: nat)
    requires Legal(h) && ss <= k < 64
    ensures RefineUpTo(h, z, al, ss, eob, k + 1) == RefineStep(h, RefineUpTo(h, z, al, ss, eob, k), z[k], al, k, eob)
  {
    hide Legal, RefineStep;
  }

  lemma FirstNextStep(h: Table, z: Block, al: nat, ss: nat, k: nat)
    requires Legal(h) && ss <= k < 64
    ensures FirstUpTo(h, z, al, ss, k + 1) == FirstStep(h, FirstUpTo(h, z, al, ss, k), z[k], al)
    ensures var l := FirstUpTo(h, z, al, ss, k);
      FirstStep(h, l, z[k], al).r == (if Mag(z[k], al) == 0 then l.r + 1 else 0)
      && (Mag(z[k], al) == 0 ==> FirstStep(h, l, z[k], al) == l.(r := l.r + 1))
  {
    hide Legal, Mag, Listed, SymBits, ZrlBits, NBits, Bin;
  }

  lemma {:induction false} FirstMono(h: Table, z: Block, al: nat, ss: nat, k: nat, m: nat)
    requires Legal(h) && ss <= k <= m <= 64
    ensures FirstUpTo(h, z, al, ss, m).ok ==> FirstUpTo(h, z, al, ss, k).ok
    ensures FirstUpTo(h, z, al, ss, k).any ==> FirstUpTo(h, z, al, ss, m).any
    decreases m
  {
    hide Legal, Listed, SymBits, ZrlBits, Mag, NBits, Bin;
    if k < m { FirstMono(h, z, al, ss, k, m - 1); }
  }

  /** Failure to send something is never made good later in the block. */
  lemma {:induction false} RefineMono(h: Table, z: Block, al: nat, ss: nat, eob: nat, k: nat, m: nat)
    requires Legal(h) && ss <= k <= m <= 64
    ensures RefineUpTo(h, z, al, ss, eob, m).ok ==> RefineUpTo(h, z, al, ss, eob, k).ok
    ensures RefineUpTo(h, z, al, ss, eob, k).any ==> RefineUpTo(h, z, al, ss, eob, m).any
    decreases m
  {
    hide Legal, Listed, SymBits, ZrlBits, Mag;
    if k < m { RefineMono(h, z, al, ss, eob, k, m - 1); }
  }

  /** One run-length-16 code leaves the same ones still to come. */
  lemma ZrlOnce(h: Table, l: Local, k: nat, eob: nat)
    requires Legal(h) && l.r > 15 && k <= eob
    ensures RefineZrl(h, l, k, eob).any && (RefineZrl(h, l, k, eob).ok ==> Listed(h, ZRL))
    ensures Listed(h, ZRL) ==>
      RefineZrl(h, Local(l.c + (SymBits(h, ZRL) + l.br), l.ok, true, l.r - 16, []), k, eob) == RefineZrl(h, l, k, eob)
  {
    hide Legal, Listed, SymBits;
    var c, s := l.c, SymBits(h, ZRL);
    if l.r - 16 > 15 {
      var x := ZrlBits(h, l.r - 32);
      assert c + (s + l.br) + (s + ([] + x)) == c + (s + (l.br + (s + x)));
    } else {
      assert s + l.br == s + (l.br + []);
    }
  }
}
