// Progressive AC scans over any number of blocks: EOB runs that span blocks and correction bits that
// wait for them (sections G.1.2.2 and G.1.2.3 of T.81), and the scan-level round trip.
module AcScan {
  import opened Wrappers
  import opened HuffmanTable
  import opened Coefficients
  import opened AcBlocks

  const MAX_CORR_BITS: nat := 1000
  const MAX_EOBRUN: nat := 0x7FFF

  datatype Kind = Sequential | Initial | Refine

  /** What kind of scan, the band, and the bit position. */
  datatype Params = Params(kind: Kind, ss: nat, se: nat, al: nat)

  predicate InBand(p: Params) { Band(p.ss, p.se) }

  /** The scans of this module: runs of blocks belong to progressive coding. */
  predicate Valid(p: Params) { InBand(p) && !p.kind.Sequential? }

  ghost function BlockCode(h: Table, p: Params, z: Block): Local
    requires Legal(h) && Valid(p)
  {
    if p.kind.Refine? then RefineUpTo(h, z, p.al, p.ss, EobAt(z, p.al, p.ss, p.se + 1), p.se + 1)
    else FirstUpTo(h, z, p.al, p.ss, p.se + 1)
  }

  /** What the scan relies on earlier scans for. */
  predicate Ready(p: Params, before: Block, z: Block) {
    if p.kind.Refine? then Known(before, z, p.ss, p.se, p.al) else Empty(before, p.ss, p.se)
  }

  function After(p: Params, before: Block, z: Block): Block {
    Improve(before, z, p.ss, p.se, p.al)
  }

  predicate Trailing(l: Local) { l.r > 0 || l.br != [] }

  /** One block, given how many blocks of an EOB run are left. */
  function DecodeBlock(h: Table, p: Params, before: Block, b: seq<bool>, run: nat): Result
    requires Legal(h) && InBand(p)
  {
    if run > 0 then
      if p.kind.Refine? then Tail(before, p.ss, p.se, p.al, b, run) else Some((before, b, run - 1))
    else match p.kind
      case Refine => DecodeRefine(h, before, p.ss, p.se, p.al, b)
      case Initial => DecodeFirst(h, before, p.ss, p.se, p.al, b)
      case Sequential => DecodeSequential(h, before, p.ss, p.se, p.al, b)
  }

  lemma {:induction false} FirstHoldsNothing(h: Table, z: Block, al: nat, ss: nat, k: nat)
    requires Legal(h) && ss <= k <= 64
    ensures FirstUpTo(h, z, al, ss, k).br == []
    decreases k
  {
    if k > ss { FirstHoldsNothing(h, z, al, ss, k - 1); }
  }

  lemma BlockDecodes(h: Table, p: Params, z: Block, before: Block, run: nat, t: seq<bool>)
    requires Legal(h) && Valid(p) && Ready(p, before, z) && BlockCode(h, p, z).ok
    ensures var l := BlockCode(h, p, z);
      && (!Trailing(l) ==> DecodeBlock(h, p, before, l.c + t, 0) == Some((After(p, before, z), t, 0)))
      && (Trailing(l) && 0 < run <= MAX_EOBRUN && Listed(h, EobSym(run)) ==>
           DecodeBlock(h, p, before, l.c + (EobBits(h, run) + (l.br + t)), 0) == Some((After(p, before, z), t, run - 1)))
      && (!l.any ==> l.c == [] && Trailing(l))
      && (!l.any && run > 0 ==> DecodeBlock(h, p, before, l.br + t, run) == Some((After(p, before, z), t, run - 1)))
  {
    hide Legal, Listed, RefineUpTo, EobAt, FirstUpTo, DecodeFirst, DecodeRefine, Tail, EobBits, EobSym, Improve, Known, Empty;
    if p.kind.Refine? {
      RefineDecodes(h, z, before, p.ss, p.se, p.al, run, t);
    } else {
      FirstDecodes(h, z, before, p.ss, p.se, p.al, run, t);
      FirstHoldsNothing(h, z, p.al, p.ss, p.se + 1);
      assert [] + t == t;
    }
  }

  // ---------- the scan ----------

  /** The encoder's running state: bits out so far, whether every symbol had a code, EOBRUN, and the
      BE correction bits that wait for the run to be announced. */
  datatype Enc = Enc(bits: seq<bool>, ok: bool, run: nat, be: seq<bool>)

  /** emit_eobrun */
  ghost function Flush(h: Table, e: Enc): Enc
    requires Legal(h)
  {
    if e.run == 0 then e
    else Enc(e.bits + (EobBits(h, e.run) + e.be), e.ok && Listed(h, EobSym(e.run)), 0, [])
  }

  ghost function AddBlock(h: Table, e: Enc, l: Local): Enc
    requires Legal(h)
  {
    var e1 := if l.any then (var f := Flush(h, e); f.(bits := f.bits + l.c, ok := f.ok && l.ok)) else e.(ok := e.ok && l.ok);
    if Trailing(l) then e1.(run := e1.run + 1, be := e1.be + l.br) else e1
  }

  predicate MustFlush(e: Enc) {
    e.run == MAX_EOBRUN || |e.be| > MAX_CORR_BITS - 64 + 1
  }

  /** AddBlock, and the flush that it may force. */
  ghost function EndBlock(h: Table, e: Enc, l: Local): Enc
    requires Legal(h)
  {
    var e1 := AddBlock(h, e, l);
    if Trailing(l) && MustFlush(e1) then Flush(h, e1) else e1
  }

  ghost function EncodeScan(h: Table, p: Params, zs: seq<Block>): Enc
    requires Legal(h) && Valid(p)
  {
    if zs == [] then Enc([], true, 0, [])
    else EndBlock(h, EncodeScan(h, p, zs[..|zs| - 1]), BlockCode(h, p, zs[|zs| - 1]))
  }

  /** All blocks of a scan, one after the other, with the run carried between them. */
  function DecodeScan(h: Table, p: Params, befores: seq<Block>, b: seq<bool>): Option<(seq<Block>, seq<bool>, nat)>
    requires Legal(h) && Valid(p)
  {
    if befores == [] then Some(([], b, 0))
    else match DecodeScan(h, p, befores[..|befores| - 1], b)
      case None => None
      case Some((afters, b1, run)) =>
        match DecodeBlock(h, p, befores[|befores| - 1], b1, run)
        case None => None
        case Some((after, b2, run2)) => Some((afters + [after], b2, run2))
  }

  predicate AllReady(p: Params, befores: seq<Block>, zs: seq<Block>) {
    |befores| == |zs| && forall i :: 0 <= i < |zs| ==> Ready(p, befores[i], zs[i])
  }

  function AllAfter(p: Params, befores: seq<Block>, zs: seq<Block>): seq<Block>
    requires |befores| == |zs|
  {
    seq(|zs|, i requires 0 <= i < |zs| => After(p, befores[i], zs[i]))
  }

  lemma {:induction false} RefineHolds(h: Table, z: Block, al: nat, ss: nat, eob: nat, k: nat)
    requires Legal(h) && ss <= k <= 64
    ensures |RefineUpTo(h, z, al, ss, eob, k).br| <= k - ss
    decreases k
  {
    hide Legal, Listed, SymBits, ZrlBits, Mag;
    if k > ss { RefineHolds(h, z, al, ss, eob, k - 1); }
  }

  lemma BlockHolds(h: Table, p: Params, z: Block)
    requires Legal(h) && Valid(p)
    ensures |BlockCode(h, p, z).br| <= 63
  {
    RefineHolds(h, z, p.al, p.ss, EobAt(z, p.al, p.ss, p.se + 1), p.se + 1);
    FirstHoldsNothing(h, z, p.al, p.ss, p.se + 1);
  }

  /** The counter and the correction-bit buffer never overflow: between blocks there is always room
      for one more block's bits, and the run can still be announced. */
  lemma {:induction false} ScanBounds(h: Table, p: Params, zs: seq<Block>)
    requires Legal(h) && Valid(p)
    ensures var e := EncodeScan(h, p, zs);
      && e.run < MAX_EOBRUN && |e.be| <= MAX_CORR_BITS - 63 && (e.run == 0 ==> e.be == [])
    ensures zs != [] ==>
      var l := BlockCode(h, p, zs[|zs| - 1]);
      var e := AddBlock(h, EncodeScan(h, p, zs[..|zs| - 1]), l);
      && |l.br| <= 63 && e.run <= MAX_EOBRUN && |e.be| <= MAX_CORR_BITS
  {
    hide Legal, Listed, BlockCode, EobBits;
    if zs != [] {
      ScanBounds(h, p, zs[..|zs| - 1]);
      BlockHolds(h, p, zs[|zs| - 1]);
    }
  }

  /** What has been sent, together with any announcement of the pending run, decodes to the blocks
      coded so far and leaves the rest of that run pending. */
  lemma {:induction false} ScanInv(h: Table, p: Params, zs: seq<Block>, befores: seq<Block>, run: nat, t: seq<bool>)
    requires Legal(h) && Valid(p) && AllReady(p, befores, zs) && EncodeScan(h, p, zs).ok
    ensures var e := EncodeScan(h, p, zs);
      && (e.run == 0 ==> DecodeScan(h, p, befores, e.bits + t) == Some((AllAfter(p, befores, zs), t, 0)))
      && (0 < e.run <= run <= MAX_EOBRUN && Listed(h, EobSym(run)) ==>
           DecodeScan(h, p, befores, e.bits + (EobBits(h, run) + (e.be + t))) == Some((AllAfter(p, befores, zs), t, run - e.run)))
    decreases |zs|, 2
  {
    hide Legal, Listed, BlockCode, EobBits, EobSym, DecodeScan, AllAfter, Ready, AddBlock;
    if zs == [] {
      ScanNone(h, p, befores, zs, t);
    } else {
      var l := BlockCode(h, p, zs[|zs| - 1]);
      var e := AddBlock(h, EncodeScan(h, p, zs[..|zs| - 1]), l);
      if Trailing(l) && MustFlush(e) {
        ScanTrailing(h, p, zs);
        assert e.bits + (EobBits(h, e.run) + e.be) + t == e.bits + (EobBits(h, e.run) + (e.be + t));
        ScanBounds(h, p, zs);
        AddBlockInv(h, p, zs, befores, e.run, t);
      } else {
        AddBlockInv(h, p, zs, befores, run, t);
      }
    }
  }

  lemma ScanNone(h: Table, p: Params, befores: seq<Block>, zs: seq<Block>, t: seq<bool>)
    requires Legal(h) && Valid(p) && befores == [] && zs == []
    ensures DecodeScan(h, p, befores, [] + t) == Some((AllAfter(p, befores, zs), t, 0))
  {
    assert [] + t == t;
    assert AllAfter(p, befores, zs) == [];
  }

  lemma ScanTrailing(h: Table, p: Params, zs: seq<Block>)
    requires Legal(h) && Valid(p) && zs != []
    ensures var l := BlockCode(h, p, zs[|zs| - 1]);
      Trailing(l) ==> AddBlock(h, EncodeScan(h, p, zs[..|zs| - 1]), l).run > 0
  {
    hide Legal, BlockCode, EobBits;
  }

  /** The same before the forced flush. */
  lemma {:induction false} AddBlockInv(h: Table, p: Params, zs: seq<Block>, befores: seq<Block>, run: nat, t: seq<bool>)
    requires Legal(h) && Valid(p) && AllReady(p, befores, zs) && zs != []
    requires AddBlock(h, EncodeScan(h, p, zs[..|zs| - 1]), BlockCode(h, p, zs[|zs| - 1])).ok
    ensures var e := AddBlock(h, EncodeScan(h, p, zs[..|zs| - 1]), BlockCode(h, p, zs[|zs| - 1]));
      && (e.run == 0 ==> DecodeScan(h, p, befores, e.bits + t) == Some((AllAfter(p, befores, zs), t, 0)))
      && (0 < e.run <= run <= MAX_EOBRUN && Listed(h, EobSym(run)) ==>
           DecodeScan(h, p, befores, e.bits + (EobBits(h, run) + (e.be + t))) == Some((AllAfter(p, befores, zs), t, run - e.run)))
    decreases |zs|, 1
  {
    hide Legal, Listed, BlockCode, EobBits, EobSym, EncodeScan, DecodeScan, DecodeBlock, AllAfter, After, Ready, Flush;
    var n := |zs| - 1;
    var z, was := zs[n], befores[n];
    var e, l := EncodeScan(h, p, zs[..n]), BlockCode(h, p, z);
    ScanBounds(h, p, zs[..n]);
    if l.any {
      BlockDecodes(h, p, z, was, run, t);
      var x := if Trailing(l) && run > 0 then EobBits(h, run) + (l.br + t) else t;
      FlushedInv(h, p, zs[..n], befores[..n], l.c + x);
      assert Flush(h, e).bits + l.c + x == Flush(h, e).bits + (l.c + x);
      ScanNext(h, p, zs, befores, Flush(h, e).bits + (l.c + x));
      FlushClears(h, e);
      assert [] + l.br == l.br;
    } else {
      BlockDecodes(h, p, z, was, 0, t);
      if 0 < e.run + 1 <= run <= MAX_EOBRUN && Listed(h, EobSym(run)) {
        EmptyBlockInv(h, p, zs, befores, run, t);
      }
    }
  }

  lemma FlushClears(h: Table, e: Enc)
    requires Legal(h) && (e.run == 0 ==> e.be == [])
    ensures Flush(h, e).run == 0 && Flush(h, e).be == []
  {
  }

  /** A block that sends nothing of its own joins the pending run or starts one. */
  lemma {:induction false} EmptyBlockInv(h: Table, p: Params, zs: seq<Block>, befores: seq<Block>, run: nat, t: seq<bool>)
    requires Legal(h) && Valid(p) && AllReady(p, befores, zs) && zs != []
    requires EncodeScan(h, p, zs[..|zs| - 1]).ok && BlockCode(h, p, zs[|zs| - 1]).ok && !BlockCode(h, p, zs[|zs| - 1]).any
    requires EncodeScan(h, p, zs[..|zs| - 1]).run + 1 <= run <= MAX_EOBRUN && Listed(h, EobSym(run))
    ensures var e, l := EncodeScan(h, p, zs[..|zs| - 1]), BlockCode(h, p, zs[|zs| - 1]);
      DecodeScan(h, p, befores, e.bits + (EobBits(h, run) + (e.be + l.br + t)))
      == Some((AllAfter(p, befores, zs), t, run - (e.run + 1)))
    decreases |zs|, 0
  {
    hide Legal, Listed, BlockCode, EobBits, EobSym, EncodeScan, DecodeScan, DecodeBlock, AllAfter, After, Ready;
    var n := |zs| - 1;
    var ys, z, was := zs[..n], zs[n], befores[n];
    var e, l := EncodeScan(h, p, ys), BlockCode(h, p, z);
    ScanBounds(h, p, ys);
    assert e.be + l.br + t == e.be + (l.br + t);
    BlockDecodes(h, p, z, was, run - e.run, t);
    if e.run > 0 {
      ScanInv(h, p, ys, befores[..n], run, l.br + t);
    } else {
      ScanInv(h, p, ys, befores[..n], run, EobBits(h, run) + (l.br + t));
      assert l.c + (EobBits(h, run) + (l.br + t)) == EobBits(h, run) + (l.br + t);
      assert [] + (l.br + t) == l.br + t;
    }
    ScanNext(h, p, zs, befores, e.bits + (EobBits(h, run) + (e.be + (l.br + t))));
  }

  lemma ScanNext(h: Table, p: Params, zs: seq<Block>, befores: seq<Block>, b: seq<bool>)
    requires Legal(h) && Valid(p) && |befores| == |zs| > 0
    ensures var n := |zs| - 1;
      forall t, run, t', run' ::
        DecodeScan(h, p, befores[..n], b) == Some((AllAfter(p, befores[..n], zs[..n]), t, run)) &&
        DecodeBlock(h, p, befores[n], t, run) == Some((After(p, befores[n], zs[n]), t', run')) ==>
        DecodeScan(h, p, befores, b) == Some((AllAfter(p, befores, zs), t', run'))
  {
    hide Legal, DecodeBlock;
    var n := |zs| - 1;
    assert AllAfter(p, befores, zs) == AllAfter(p, befores[..n], zs[..n]) + [After(p, befores[n], zs[n])];
  }

  /** emit_eobrun leaves nothing pending. */
  lemma {:induction false} FlushedInv(h: Table, p: Params, zs: seq<Block>, befores: seq<Block>, t: seq<bool>)
    requires Legal(h) && Valid(p) && AllReady(p, befores, zs) && Flush(h, EncodeScan(h, p, zs)).ok
    ensures DecodeScan(h, p, befores, Flush(h, EncodeScan(h, p, zs)).bits + t) == Some((AllAfter(p, befores, zs), t, 0))
    decreases |zs|, 3
  {
    hide Legal, Listed, BlockCode, EobBits, EobSym, DecodeScan, AllAfter, Ready, AddBlock;
    var e := EncodeScan(h, p, zs);
    ScanInv(h, p, zs, befores, e.run, t);
    ScanBounds(h, p, zs);
    if e.run > 0 {
      assert e.bits + (EobBits(h, e.run) + e.be) + t == e.bits + (EobBits(h, e.run) + (e.be + t));
    }
  }

  /** The scan round trip: whatever the blocks, however the runs fall, and whatever bits follow, the
      decoder improves every block to exactly what the encoder coded and stops where it stopped. */
  lemma ScanRoundTrip(h: Table, p: Params, zs: seq<Block>, befores: seq<Block>, t: seq<bool>)
    requires Legal(h) && Valid(p) && AllReady(p, befores, zs) && Flush(h, EncodeScan(h, p, zs)).ok
    ensures var r := DecodeScan(h, p, befores, Flush(h, EncodeScan(h, p, zs)).bits + t);
      && r.Some? && r.value.1 == t && r.value.2 == 0 && |r.value.0| == |zs|
      && forall i :: 0 <= i < |zs| ==> r.value.0[i] == Improve(befores[i], zs[i], p.ss, p.se, p.al)
  {
    FlushedInv(h, p, zs, befores, t);
  }

  // ---------- segments ----------

  /** The bits between two restart markers. */
  ghost function Segment(h: Table, p: Params, zs: seq<Block>): seq<bool>
    requires Legal(h) && Valid(p)
  {
    Flush(h, EncodeScan(h, p, zs)).bits
  }

  ghost function SegmentsOf(h: Table, p: Params, zss: seq<seq<Block>>): seq<seq<bool>>
    requires Legal(h) && Valid(p)
  {
    seq(|zss|, i requires 0 <= i < |zss| => Segment(h, p, zss[i]))
  }

  /** Decoding part of the blocks comes first when decoding all of them. */
  lemma {:induction false} ScanPrefix(h: Table, p: Params, befores: seq<Block>, b: seq<bool>, j: nat)
    requires Legal(h) && Valid(p) && j <= |befores| && DecodeScan(h, p, befores, b).Some?
    ensures |DecodeScan(h, p, befores, b).value.0| == |befores|
    ensures DecodeScan(h, p, befores[..j], b).Some?
    ensures DecodeScan(h, p, befores[..j], b).value.0 == DecodeScan(h, p, befores, b).value.0[..j]
    decreases |befores|
  {
    hide Legal, DecodeBlock;
    var n := |befores| - 1;
    if j == |befores| {
      assert befores[..j] == befores;
      if n >= 0 { ScanPrefix(h, p, befores[..n], b, n); }
    } else {
      ScanPrefix(h, p, befores[..n], b, j);
      assert befores[..n][..j] == befores[..j];
    }
  }

  /** Block by block through a segment, padding and all. */
  lemma NextInSegment(h: Table, p: Params, zs: seq<Block>, befores: seq<Block>, t: seq<bool>, j: nat)
    requires Legal(h) && Valid(p) && AllReady(p, befores, zs) && Flush(h, EncodeScan(h, p, zs)).ok && j <= |zs|
    ensures var s := DecodeScan(h, p, befores[..j], Segment(h, p, zs) + t);
      && s.Some?
      && (j == |zs| ==> s.value.1 == t && s.value.2 == 0)
      && (j < |zs| ==>
           var m := DecodeBlock(h, p, befores[j], s.value.1, s.value.2);
           var s' := DecodeScan(h, p, befores[..j + 1], Segment(h, p, zs) + t);
           && m.Some? && s'.Some? && m.value == (After(p, befores[j], zs[j]), s'.value.1, s'.value.2))
  {
    hide Legal, DecodeBlock, Ready, Flush, EncodeScan, Improve;
    var b := Segment(h, p, zs) + t;
    ScanRoundTrip(h, p, zs, befores, t);
    ScanPrefix(h, p, befores, b, j);
    assert befores[..|befores|] == befores;
    if j < |zs| {
      ScanPrefix(h, p, befores, b, j + 1);
      assert befores[..j + 1][..j] == befores[..j];
    }
  }
}
