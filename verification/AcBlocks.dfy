// Progressive AC coding of one block (sections G.1.2.2 and G.1.2.3 of T.81), as bit strings:
// what encode_mcu_AC_first and encode_mcu_AC_refine send for a block, what decode_mcu_AC_first and
// decode_mcu_AC_refine make of it, and that the second undoes the first.
//
// Blocks are in zigzag order here; the order itself belongs to the methods that touch memory.
module AcBlocks {
  import opened Wrappers
  import opened Bits
  import opened HuffmanTable
  import opened Coefficients

  const ZRL: nat := 0xF0

  type Block = z: seq<int> | |z| == 64 witness seq(64, _ => 0)

  predicate Band(ss: nat, se: nat) { 1 <= ss <= se <= 63 }

  // ---------- symbols and raw bits ----------

  ghost predicate Listed(h: Table, s: nat)
    requires Legal(h)
  {
    exists p :: 0 <= p < Count(h) && h.huffval[p] == s
  }

  /** The code of a symbol; a symbol without one sends nothing (and stops the encoder). */
  ghost function SymBits(h: Table, s: nat): seq<bool>
    requires Legal(h)
  {
    if Listed(h, s) then
      var p :| 0 <= p < Count(h) && h.huffval[p] == s;
      CodeBits(h, p)
    else []
  }

  lemma SymDecodes(h: Table, s: nat, t: seq<bool>)
    requires Legal(h) && Listed(h, s)
    ensures Serial(h, SymBits(h, s) + t) == Some((s, t))
  {
    hide Serial;
    var p :| 0 <= p < Count(h) && h.huffval[p] == s && SymBits(h, s) == CodeBits(h, p);
    SerialDecodesCode(h, p, t);
  }

  /** The next n bits as a number. */
  function TakeBits(b: seq<bool>, n: nat): Option<(nat, seq<bool>)> {
    if |b| < n then None else Some((Val(b[..n]), b[n..]))
  }

  lemma TakeBin(v: int, n: nat, t: seq<bool>)
    ensures TakeBits(Bin(v, n) + t, n) == Some((Low(v, n), t))
  {
    hide Bin, Val, Low;
    ValBin(v, n);
    assert (Bin(v, n) + t)[..n] == Bin(v, n);
  }

  // ---------- the encoder's view of a block ----------

  /** What has been sent for the block so far, whether all of it could be sent, whether that was
      anything at all, the run of zeros, and the correction bits held back. */
  datatype Local = Local(c: seq<bool>, ok: bool, any: bool, r: nat, br: seq<bool>)

  const Start := Local([], true, false, 0, [])

  ghost function ZrlBits(h: Table, r: nat): seq<bool>
    requires Legal(h)
  {
    if r > 15 then SymBits(h, ZRL) + ZrlBits(h, r - 16) else []
  }

  /** One coefficient of a first scan. */
  ghost function FirstStep(h: Table, l: Local, v: int, al: nat): Local
    requires Legal(h)
  {
    var m := Mag(v, al);
    if m == 0 then l.(r := l.r + 1)
    else
      var n := NBits(m);
      var sym := 16 * (l.r % 16) + n;
      Local(l.c + (ZrlBits(h, l.r) + (SymBits(h, sym) + Bin(Complement(Signed(v, al)), n))),
            l.ok && (l.r > 15 ==> Listed(h, ZRL)) && Listed(h, sym) && n <= MAX_COEF_BITS,
            true, 0, [])
  }

  ghost function FirstUpTo(h: Table, z: Block, al: nat, ss: nat, k: nat): Local
    requires Legal(h) && ss <= k <= 64
    decreases k
  {
    if k == ss then Start else FirstStep(h, FirstUpTo(h, z, al, ss, k - 1), z[k - 1], al)
  }

  /** Index of the last newly nonzero coefficient, 0 if there is none. */
  function EobAt(z: Block, al: nat, ss: nat, k: nat): (e: nat)
    requires ss <= k <= 64
    ensures e < 64
    decreases k
  {
    if k == ss then 0 else if Mag(z[k - 1], al) == 1 then k - 1 else EobAt(z, al, ss, k - 1)
  }

  /** Run-length-16 codes due before coefficient k, the first with the held-back bits. */
  ghost function RefineZrl(h: Table, l: Local, k: nat, eob: nat): Local
    requires Legal(h)
  {
    if l.r > 15 && k <= eob then
      Local(l.c + (SymBits(h, ZRL) + (l.br + ZrlBits(h, l.r - 16))), l.ok && Listed(h, ZRL), true, l.r % 16, [])
    else l
  }

  /** One coefficient of a refinement scan. */
  ghost function RefineStep(h: Table, l0: Local, v: int, al: nat, k: nat, eob: nat): Local
    requires Legal(h)
  {
    var m := Mag(v, al);
    var l := RefineZrl(h, l0, k, eob);
    if m == 0 then l0.(r := l0.r + 1)
    else if m > 1 then l.(br := l.br + [m % 2 == 1])
    else Local(l.c + (SymBits(h, 16 * l.r + 1) + ([v >= 0] + l.br)), l.ok && Listed(h, 16 * l.r + 1), true, 0, [])
  }

  ghost function RefineUpTo(h: Table, z: Block, al: nat, ss: nat, eob: nat, k: nat): Local
    requires Legal(h) && ss <= k <= 64
    decreases k
  {
    if k == ss then Start else RefineStep(h, RefineUpTo(h, z, al, ss, eob, k - 1), z[k - 1], al, k - 1, eob)
  }

  // ---------- the decoder's view ----------

  /** The EOB symbol for a run, with its appended bits. */
  function EobSym(run: nat): nat
    requires run > 0
  {
    16 * (NBits(run) - 1)
  }

  ghost function EobBits(h: Table, run: nat): seq<bool>
    requires Legal(h) && run > 0
  {
    SymBits(h, EobSym(run)) + Bin(run, NBits(run) - 1)
  }

  /** Block, unread bits, and blocks still to be skipped. */
  type Result = Option<(Block, seq<bool>, nat)>

  /** Corrupt data may lead past the block: jpeg_natural_order sends such positions to the last one. */
  function Clip(k: nat): (k': nat)
    ensures k' < 64
  {
    if k < 64 then k else 63
  }

  /** decode_mcu_AC_first from position k; None when the bits run out. */
  function DecodeFirst(h: Table, z: Block, k: nat, se: nat, al: nat, b: seq<bool>): Result
    requires Legal(h) && se <= 63
    decreases 64 - k
  {
    if k > se then Some((z, b, 0))
    else match Serial(h, b)
      case None => None
      case Some((sym, b1)) =>
        var r, s := sym / 16, sym % 16;
        if s != 0 then
          match TakeBits(b1, s)
          case None => None
          case Some((x, b2)) =>
            DecodeFirst(h, z[Clip(k + r) := Shl(Extend(x, s), al)], k + r + 1, se, al, b2)
        else if r == 15 then DecodeFirst(h, z, k + 16, se, al, b1)
        else
          match TakeBits(b1, r)
          case None => None
          case Some((x, b2)) => Some((z, b2, Pow2(r) + x - 1))
  }

  /** The same in decode_mcu, where a zero size ends the block whatever the run. */
  function DecodeSequential(h: Table, z: Block, k: nat, se: nat, al: nat, b: seq<bool>): Result
    requires Legal(h) && se <= 63
    decreases 64 - k
  {
    if k > se then Some((z, b, 0))
    else match Serial(h, b)
      case None => None
      case Some((sym, b1)) =>
        var r, s := sym / 16, sym % 16;
        if s != 0 then
          match TakeBits(b1, s)
          case None => None
          case Some((x, b2)) => DecodeSequential(h, z[Clip(k + r) := Shl(Extend(x, s), al)], k + r + 1, se, al, b2)
        else if r == 15 then DecodeSequential(h, z, k + 16, se, al, b1)
        else Some((z, b1, 0))
  }

  /** A sequential decoder reads a first scan without runs alike. */
  lemma {:induction false} SequentialAgrees(h: Table, z: Block, k: nat, se: nat, al: nat, b: seq<bool>)
    requires Legal(h) && se <= 63 && DecodeFirst(h, z, k, se, al, b).Some? && DecodeFirst(h, z, k, se, al, b).value.2 == 0
    ensures DecodeSequential(h, z, k, se, al, b) == DecodeFirst(h, z, k, se, al, b)
    decreases 64 - k
  {
    hide Legal, Serial, Shl, Extend;
    if k <= se {
      var (sym, b1) := Serial(h, b).value;
      var r, s := sym / 16, sym % 16;
      if s != 0 {
        var (x, b2) := TakeBits(b1, s).value;
        SequentialAgrees(h, z[Clip(k + r) := Shl(Extend(x, s), al)], k + r + 1, se, al, b2);
      } else if r == 15 {
        SequentialAgrees(h, z, k + 16, se, al, b1);
      }
    }
  }

  /** The inner loop of decode_mcu_AC_refine: correct nonzero coefficients while passing r zeros. */
  function Advance(z: Block, k: nat, se: nat, al: nat, r: nat, b: seq<bool>): (res: Option<(Block, nat, seq<bool>)>)
    requires se <= 63 && k <= se + 1
    ensures res.Some? ==> k <= res.value.1 <= se + 1
    decreases se + 1 - k
  {
    if k == se + 1 then Some((z, k, b))
    else if z[k] != 0 then
      if b == [] then None
      else Advance(z[k := if b[0] then Bump(z[k], al) else z[k]], k + 1, se, al, r, b[1..])
    else if r == 0 then Some((z, k, b))
    else Advance(z, k + 1, se, al, r - 1, b)
  }

  /** Corrections to the end of the band. */
  function Tail(z: Block, k: nat, se: nat, al: nat, b: seq<bool>, run: nat): Result
    requires se <= 63 && k <= se + 1 && run > 0
  {
    match Advance(z, k, se, al, 64, b)
    case None => None
    case Some((z', _, b')) => Some((z', b', run - 1))
  }

  /** decode_mcu_AC_refine from position k, not inside an EOB run. */
  function DecodeRefine(h: Table, z: Block, k: nat, se: nat, al: nat, b: seq<bool>): Result
    requires Legal(h) && se <= 63
    decreases 64 - k
  {
    if k > se then Some((z, b, 0))
    else match Serial(h, b)
      case None => None
      case Some((sym, b1)) =>
        var r, s := sym / 16, sym % 16;
        if s != 0 then
          if b1 == [] then None
          else match Advance(z, k, se, al, r, b1[1..])
            case None => None
            case Some((z', k', b')) =>
              DecodeRefine(h, z'[Clip(k') := if b1[0] then Shl(1, al) else Shl(-1, al)], k' + 1, se, al, b')
        else if r == 15 then
          match Advance(z, k, se, al, 15, b1)
          case None => None
          case Some((z', k', b')) => DecodeRefine(h, z', k' + 1, se, al, b')
        else
          match TakeBits(b1, r)
          case None => None
          case Some((x, b2)) => Tail(z, k, se, al, b2, Pow2(r) + x)
  }

  // ---------- what both scans share ----------

  /** The block a scan with this al leaves, given the block before it and the true coefficients. */
  function Improve(before: Block, z: Block, ss: nat, se: nat, al: nat): (after: Block)
    ensures forall i :: 0 <= i < 64 ==> after[i] == if ss <= i <= se then Point(z[i], al) else before[i]
  {
    seq(64, i requires 0 <= i < 64 => if ss <= i <= se then Point(z[i], al) else before[i])
  }

  /** Improved below k, untouched from k on. */
  function Mix(after: Block, before: Block, k: nat): Block
    requires k <= 64
  {
    after[..k] + before[k..]
  }

  lemma EobDecodes(h: Table, run: nat, t: seq<bool>)
    requires Legal(h) && 0 < run <= 0x7FFF && Listed(h, EobSym(run))
    ensures Serial(h, EobBits(h, run) + t) == Some((EobSym(run), Bin(run, NBits(run) - 1) + t))
    ensures EobSym(run) / 16 == NBits(run) - 1 < 15 && EobSym(run) % 16 == 0
    ensures TakeBits(Bin(run, NBits(run) - 1) + t, NBits(run) - 1) == Some((run - Pow2(NBits(run) - 1), t))
  {
    hide Serial, TakeBits, Legal, Listed, SymBits, Bin, Low, Shl, Shr, Pow2, NBits;
    var n := NBits(run) - 1;
    Pow2Values();
    NBitsBound(run, 15);
    SymDecodes(h, EobSym(run), Bin(run, n) + t);
    assert EobBits(h, run) + t == SymBits(h, EobSym(run)) + (Bin(run, n) + t);
    TakeBin(run, n, t);
    ShlPow2(n);
    Pow2Double(n);
    JoinAt(1, run - Pow2(n), n);
  }

  // ---------- the first scan decodes to what was sent ----------

  /** A first scan finds the band empty. */
  predicate Empty(before: Block, ss: nat, se: nat) {
    forall i :: ss <= i <= se && i < 64 ==> before[i] == 0
  }

  /** Where decode_mcu_AC_first goes after a symbol. */
  lemma FirstNext(h: Table, w: Block, k: nat, se: nat, al: nat, b: seq<bool>, r: nat, s: nat, b1: seq<bool>)
    requires Legal(h) && k <= se <= 63 && r <= 15 && s <= 15 && Serial(h, b) == Some((16 * r + s, b1))
    ensures s == 0 && r == 15 ==> DecodeFirst(h, w, k, se, al, b) == DecodeFirst(h, w, k + 16, se, al, b1)
    ensures s != 0 && k + r <= se && TakeBits(b1, s).Some? ==>
      DecodeFirst(h, w, k, se, al, b) ==
      DecodeFirst(h, w[k + r := Shl(Extend(TakeBits(b1, s).value.0, s), al)], k + r + 1, se, al, TakeBits(b1, s).value.1)
    ensures s == 0 && r < 15 && TakeBits(b1, r).Some? ==>
      DecodeFirst(h, w, k, se, al, b) == Some((w, TakeBits(b1, r).value.1, Pow2(r) + TakeBits(b1, r).value.0 - 1))
  {
    hide Legal, Serial, TakeBits, Shl, Extend, Pow2;
    assert (16 * r + s) / 16 == r && (16 * r + s) % 16 == s;
  }

  lemma {:induction false} FirstZrlSkips(h: Table, w: Block, k: nat, se: nat, al: nat, r: nat, t: seq<bool>)
    requires Legal(h) && k + r <= se <= 63 && (r > 15 ==> Listed(h, ZRL))
    ensures DecodeFirst(h, w, k, se, al, ZrlBits(h, r) + t) == DecodeFirst(h, w, k + r - r % 16, se, al, t)
    decreases r
  {
    hide Legal, Listed, Serial, SymBits, TakeBits, DecodeFirst, Shl, Extend, Pow2;
    if r > 15 {
      var rest := ZrlBits(h, r - 16) + t;
      SymDecodes(h, ZRL, rest);
      assert ZrlBits(h, r) + t == SymBits(h, ZRL) + rest;
      FirstNext(h, w, k, se, al, ZrlBits(h, r) + t, 15, 0, rest);
      FirstZrlSkips(h, w, k + 16, se, al, r - 16, t);
    } else {
      assert [] + t == t;
    }
  }

  lemma FirstSymbol(h: Table, w: Block, k: nat, r: nat, v: int, se: nat, al: nat, t: seq<bool>)
    requires Legal(h) && r <= 15 && k + r <= se <= 63 && Mag(v, al) > 0
    requires Listed(h, 16 * r + NBits(Mag(v, al))) && NBits(Mag(v, al)) <= MAX_COEF_BITS
    ensures DecodeFirst(h, w, k, se, al,
              SymBits(h, 16 * r + NBits(Mag(v, al))) + (Bin(Complement(Signed(v, al)), NBits(Mag(v, al))) + t))
         == DecodeFirst(h, w[k + r := Point(v, al)], k + r + 1, se, al, t)
  {
    hide Legal, Listed, Serial, SymBits, TakeBits, Extend, Low, Shl, Mag, DecodeFirst, Pow2, Bin;
    var n := NBits(Mag(v, al));
    var rest := Bin(Complement(Signed(v, al)), n) + t;
    SymDecodes(h, 16 * r + n, rest);
    TakeBin(Complement(Signed(v, al)), n, t);
    ExtendComplement(Signed(v, al));
    FirstNext(h, w, k, se, al, SymBits(h, 16 * r + n) + rest, r, n, rest);
  }

  /** Filling a hole: what lies between k0 and k is the same before and after. */
  lemma MixSet(after: Block, before: Block, k0: nat, k: nat)
    requires k0 <= k < 64 && (forall i :: k0 <= i < k ==> before[i] == after[i])
    ensures Mix(after, before, k0)[k := after[k]] == Mix(after, before, k + 1)
    ensures Mix(after, before, k0) == Mix(after, before, k)
  {
  }

  lemma MixEnds(after: Block, before: Block, k0: nat)
    requires k0 <= 64 && (forall i :: k0 <= i < 64 ==> before[i] == after[i])
    ensures Mix(after, before, k0) == after
  {
  }

  lemma MixStarts(after: Block, before: Block, k0: nat)
    requires k0 <= 64 && (forall i :: 0 <= i < k0 ==> before[i] == after[i])
    ensures Mix(after, before, k0) == before
  {
  }

  lemma {:induction false} FirstInv(h: Table, z: Block, before: Block, ss: nat, se: nat, al: nat, k: nat, t: seq<bool>)
    returns (k0: nat)
    requires Legal(h) && Band(ss, se) && Empty(before, ss, se) && ss <= k <= se + 1
    requires FirstUpTo(h, z, al, ss, k).ok
    ensures ss <= k0 <= k && FirstUpTo(h, z, al, ss, k).r == k - k0
    ensures !FirstUpTo(h, z, al, ss, k).any ==> FirstUpTo(h, z, al, ss, k).c == [] && k0 == ss
    ensures forall i :: k0 <= i < k ==> Improve(before, z, ss, se, al)[i] == 0
    ensures DecodeFirst(h, before, ss, se, al, FirstUpTo(h, z, al, ss, k).c + t)
         == DecodeFirst(h, Mix(Improve(before, z, ss, se, al), before, k0), k0, se, al, t)
    decreases k, 1
  {
    hide Legal, Listed, Serial, SymBits, TakeBits, DecodeFirst, ZrlBits, Mag, Point, Mix, Improve, Bin, NBits;
    var after := Improve(before, z, ss, se, al);
    if k == ss {
      MixStarts(after, before, ss);
      assert [] + t == t;
      k0 := ss;
    } else {
      var l, v := FirstUpTo(h, z, al, ss, k - 1), z[k - 1];
      if Mag(v, al) == 0 {
        k0 := FirstInv(h, z, before, ss, se, al, k - 1, t);
        PointNonzero(v, al);
      } else {
        k0 := FirstInvSymbol(h, z, before, ss, se, al, k, t);
      }
    }
  }

  lemma {:induction false} FirstInvSymbol(h: Table, z: Block, before: Block, ss: nat, se: nat, al: nat, k: nat, t: seq<bool>)
    returns (k0: nat)
    requires Legal(h) && Band(ss, se) && Empty(before, ss, se) && ss < k <= se + 1
    requires FirstUpTo(h, z, al, ss, k).ok && Mag(z[k - 1], al) > 0
    ensures k0 == k
    ensures DecodeFirst(h, before, ss, se, al, FirstUpTo(h, z, al, ss, k).c + t)
         == DecodeFirst(h, Mix(Improve(before, z, ss, se, al), before, k0), k0, se, al, t)
    decreases k, 0
  {
    hide Legal, Listed, Serial, SymBits, TakeBits, DecodeFirst, ZrlBits, Mag, Point, Mix, Improve, Bin, NBits, Signed, Complement, Pow2;
    var after := Improve(before, z, ss, se, al);
    var l, v := FirstUpTo(h, z, al, ss, k - 1), z[k - 1];
    var n := NBits(Mag(v, al));
    var sym, raw := SymBits(h, 16 * (l.r % 16) + n), Bin(Complement(Signed(v, al)), n);
    k0 := FirstInv(h, z, before, ss, se, al, k - 1, ZrlBits(h, l.r) + (sym + (raw + t)));
    Regroup(l.c, ZrlBits(h, l.r), sym, raw, t);
    var w := Mix(after, before, k0);
    FirstZrlSkips(h, w, k0, se, al, l.r, sym + (raw + t));
    FirstSymbol(h, w, k0 + l.r - l.r % 16, l.r % 16, v, se, al, t);
    MixSet(after, before, k0, k - 1);
    k0 := k;
  }

  lemma Regroup(a: seq<bool>, b: seq<bool>, c: seq<bool>, d: seq<bool>, t: seq<bool>)
    ensures a + (b + (c + d)) + t == a + (b + (c + (d + t)))
  {
  }

  /** The block as the decoder reconstructs it: with the EOB run that the encoder will announce when
      the block ends in zeros, and without one when it does not. */
  lemma FirstDecodes(h: Table, z: Block, before: Block, ss: nat, se: nat, al: nat, run: nat, t: seq<bool>)
    requires Legal(h) && Band(ss, se) && Empty(before, ss, se) && FirstUpTo(h, z, al, ss, se + 1).ok
    ensures var l := FirstUpTo(h, z, al, ss, se + 1);
      var after := Improve(before, z, ss, se, al);
      && (l.r == 0 ==> DecodeFirst(h, before, ss, se, al, l.c + t) == Some((after, t, 0)))
      && (l.r > 0 && 0 < run <= 0x7FFF && Listed(h, EobSym(run)) ==>
           DecodeFirst(h, before, ss, se, al, l.c + (EobBits(h, run) + t)) == Some((after, t, run - 1)))
      && (!l.any ==> l.c == [] && l.r > 0 && before == after)
  {
    hide Legal, Listed, Serial, SymBits, TakeBits, ZrlBits, Mag, Point, EobSym, Bin, NBits, FirstUpTo, Mix, Pow2, DecodeFirst;
    var l := FirstUpTo(h, z, al, ss, se + 1);
    var after := Improve(before, z, ss, se, al);
    var k0 := FirstInv(h, z, before, ss, se, al, se + 1, t);
    MixEnds(after, before, k0);
    if l.r == 0 { FirstOver(h, after, se + 1, se, al, t); }
    if l.r > 0 && 0 < run <= 0x7FFF && Listed(h, EobSym(run)) {
      var k1 := FirstInv(h, z, before, ss, se, al, se + 1, EobBits(h, run) + t);
      EobDecodes(h, run, t);
      var n := NBits(run) - 1;
      FirstNext(h, after, k1, se, al, EobBits(h, run) + t, n, 0, Bin(run, n) + t);
    }
    if !l.any { MixStarts(after, before, ss); }
  }

  lemma FirstOver(h: Table, z: Block, k: nat, se: nat, al: nat, b: seq<bool>)
    requires Legal(h) && se < k && se <= 63
    ensures DecodeFirst(h, z, k, se, al, b) == Some((z, b, 0))
  {
  }

  // ---------- the refinement scan decodes to what was sent ----------

  /** A refinement scan finds every coefficient of the band known down to the bit above. */
  predicate Known(before: Block, z: Block, ss: nat, se: nat, al: nat) {
    forall i :: ss <= i <= se && i < 64 ==> before[i] == Point(z[i], al + 1)
  }

  /** The correction bits that belong to positions i up to j, and the zeros among them. */
  function Corrections(z: Block, al: nat, i: nat, j: nat): seq<bool>
    requires i <= j <= 64
    decreases j
  {
    if i == j then [] else Corrections(z, al, i, j - 1) + (if Mag(z[j - 1], al) > 1 then [Mag(z[j - 1], al) % 2 == 1] else [])
  }

  function Zeros(z: Block, al: nat, i: nat, j: nat): nat
    requires i <= j <= 64
    decreases j
  {
    if i == j then 0 else Zeros(z, al, i, j - 1) + (if Mag(z[j - 1], al) == 0 then 1 else 0)
  }

  /** One position of the decoder's inner loop. */
  lemma AdvanceStep(z: Block, before: Block, ss: nat, se: nat, al: nat, k: nat, r: nat, t: seq<bool>)
    requires Band(ss, se) && Known(before, z, ss, se, al) && ss <= k <= se
    ensures var w := Mix(Improve(before, z, ss, se, al), before, k);
      var w' := Mix(Improve(before, z, ss, se, al), before, k + 1);
      && (Mag(z[k], al) > 1 ==>
           Advance(w, k, se, al, r, [Mag(z[k], al) % 2 == 1] + t) == Advance(w', k + 1, se, al, r, t))
      && (Mag(z[k], al) == 0 && r > 0 ==> Advance(w, k, se, al, r, t) == Advance(w', k + 1, se, al, r - 1, t))
      && (Mag(z[k], al) <= 1 && r == 0 ==> Advance(w, k, se, al, r, t) == Some((w, k, t)))
  {
    hide Mag, Point, Mix, Improve, Bump;
    var after := Improve(before, z, ss, se, al);
    var w := Mix(after, before, k);
    MixSet(after, before, k, k);
    assert w[k] == before[k] == Point(z[k], al + 1) by { MixAt(after, before, k); }
    if Mag(z[k], al) > 1 {
      CorrectionBit(z[k], al);
      assert ([Mag(z[k], al) % 2 == 1] + t)[1..] == t;
    } else if Mag(z[k], al) == 0 {
      StillZero(z[k], al);
      assert w[k := after[k]] == w;
    } else {
      NewlyNonzero(z[k], al);
    }
  }

  lemma MixAt(after: Block, before: Block, k: nat)
    requires k < 64
    ensures Mix(after, before, k)[k] == before[k]
  {
  }

  /** A stretch without newly nonzero coefficients is passed by its corrections and its zeros. */
  lemma {:induction false} AdvanceSpan(z: Block, before: Block, ss: nat, se: nat, al: nat, k0: nat, k: nat, r: nat, t: seq<bool>)
    requires Band(ss, se) && Known(before, z, ss, se, al) && ss <= k0 <= k <= se + 1
    requires (forall i :: k0 <= i < k ==> Mag(z[i], al) != 1) && Zeros(z, al, k0, k) <= r
    ensures Advance(Mix(Improve(before, z, ss, se, al), before, k0), k0, se, al, r, Corrections(z, al, k0, k) + t)
         == Advance(Mix(Improve(before, z, ss, se, al), before, k), k, se, al, r - Zeros(z, al, k0, k), t)
    decreases k
  {
    hide Advance, Mag, Point, Mix, Improve;
    if k0 == k {
      assert [] + t == t;
    } else {
      var x := if Mag(z[k - 1], al) > 1 then [Mag(z[k - 1], al) % 2 == 1] else [];
      assert Corrections(z, al, k0, k - 1) + x + t == Corrections(z, al, k0, k - 1) + (x + t);
      assert x == [] ==> x + t == t;
      AdvanceSpan(z, before, ss, se, al, k0, k - 1, r, x + t);
      AdvanceStep(z, before, ss, se, al, k - 1, r - Zeros(z, al, k0, k - 1), t);
    }
  }

  /** A run of zeros has no corrections. */
  lemma {:induction false} AllZero(z: Block, al: nat, k0: nat, q: nat, k: nat)
    requires k0 <= q <= k <= 64 && forall i :: q <= i < k ==> Mag(z[i], al) == 0
    ensures Corrections(z, al, k0, k) == Corrections(z, al, k0, q) && Zeros(z, al, k0, k) == Zeros(z, al, k0, q) + (k - q)
    decreases k
  {
    hide Mag;
    if q < k { AllZero(z, al, k0, q, k - 1); }
  }

  /** Where decode_mcu_AC_refine goes after a symbol. */
  lemma RefineNext(h: Table, w: Block, k: nat, se: nat, al: nat, b: seq<bool>, r: nat, s: nat, b1: seq<bool>)
    requires Legal(h) && k <= se <= 63 && r <= 15 && s <= 1 && Serial(h, b) == Some((16 * r + s, b1))
    ensures s == 0 && r == 15 && Advance(w, k, se, al, 15, b1).Some? ==>
      var a := Advance(w, k, se, al, 15, b1).value;
      DecodeRefine(h, w, k, se, al, b) == DecodeRefine(h, a.0, a.1 + 1, se, al, a.2)
    ensures s == 1 && b1 != [] && Advance(w, k, se, al, r, b1[1..]).Some? && Advance(w, k, se, al, r, b1[1..]).value.1 <= se ==>
      var a := Advance(w, k, se, al, r, b1[1..]).value;
      DecodeRefine(h, w, k, se, al, b) ==
      DecodeRefine(h, a.0[a.1 := if b1[0] then Shl(1, al) else Shl(-1, al)], a.1 + 1, se, al, a.2)
    ensures s == 0 && r < 15 && TakeBits(b1, r).Some? ==>
      DecodeRefine(h, w, k, se, al, b) == Tail(w, k, se, al, TakeBits(b1, r).value.1, Pow2(r) + TakeBits(b1, r).value.0)
  {
    hide Legal, Serial, TakeBits, Shl, Pow2, Advance, Tail;
    assert (16 * r + s) / 16 == r && (16 * r + s) % 16 == s;
  }

  /** Run-length-16 codes inside a run of zeros. */
  lemma {:induction false} RefineZrlSkips(h: Table, z: Block, before: Block, ss: nat, se: nat, al: nat, k: nat, r: nat, t: seq<bool>)
    requires Legal(h) && Band(ss, se) && Known(before, z, ss, se, al) && ss <= k && k + r <= se
    requires (forall i :: k <= i < k + r ==> Mag(z[i], al) == 0) && (r > 15 ==> Listed(h, ZRL))
    ensures DecodeRefine(h, Mix(Improve(before, z, ss, se, al), before, k), k, se, al, ZrlBits(h, r) + t)
         == DecodeRefine(h, Mix(Improve(before, z, ss, se, al), before, k + r - r % 16), k + r - r % 16, se, al, t)
    decreases r
  {
    hide Legal, Listed, Serial, SymBits, TakeBits, DecodeRefine, Advance, Mag, Point, Mix, Improve;
    if r > 15 {
      var after := Improve(before, z, ss, se, al);
      var w, rest := Mix(after, before, k), ZrlBits(h, r - 16) + t;
      SymDecodes(h, ZRL, rest);
      assert ZrlBits(h, r) + t == SymBits(h, ZRL) + rest;
      SixteenthZero(z, before, ss, se, al, k, k, k + 15, rest);
      assert [] + rest == rest;
      RefineNext(h, w, k, se, al, ZrlBits(h, r) + t, 15, 0, rest);
      RefineZrlSkips(h, z, before, ss, se, al, k + 16, r - 16, t);
    } else {
      assert [] + t == t;
    }
  }

  /** The decoder stops at the sixteenth zero, position m, having applied the corrections before it. */
  lemma SixteenthZero(z: Block, before: Block, ss: nat, se: nat, al: nat, k0: nat, q: nat, m: nat, t: seq<bool>)
    requires Band(ss, se) && Known(before, z, ss, se, al) && ss <= k0 <= q <= m <= se
    requires (forall i :: k0 <= i < q ==> Mag(z[i], al) != 1) && (forall i :: q <= i <= m ==> Mag(z[i], al) == 0)
    requires Zeros(z, al, k0, q) + (m - q) == 15
    ensures Advance(Mix(Improve(before, z, ss, se, al), before, k0), k0, se, al, 15, Corrections(z, al, k0, q) + t)
         == Some((Mix(Improve(before, z, ss, se, al), before, m + 1), m, t))
  {
    hide Advance, Mag, Point, Mix, Improve;
    AllZero(z, al, k0, q, m);
    AdvanceSpan(z, before, ss, se, al, k0, m, 15, t);
    AdvanceStep(z, before, ss, se, al, m, 0, t);
    PointNonzero(z[m], al);
    StillZero(z[m], al);
    MixSet(Improve(before, z, ss, se, al), before, m, m);
    var after := Improve(before, z, ss, se, al);
    assert Mix(after, before, m)[m] == after[m] by { MixAt(after, before, m); assert before[m] == Point(z[m], al + 1); }
    assert Mix(after, before, m)[m := after[m]] == Mix(after, before, m);
  }

  /** How the encoder's running state reads the stretch since the last symbol, which began at k0
      and whose last nonzero coefficient lies just before q. */
  ghost predicate Stretch(z: Block, al: nat, ss: nat, eob: nat, k: nat, l: Local, k0: nat, q: nat) {
    && ss <= k0 <= q <= k <= 64
    && l.br == Corrections(z, al, k0, q) && l.r == Zeros(z, al, k0, q) + (k - q)
    && (forall i :: q <= i < k ==> Mag(z[i], al) == 0)
    && (forall i :: k0 <= i < q ==> Mag(z[i], al) != 1)
    && (q == k0 || q - 1 > eob || Zeros(z, al, k0, q) <= 15)
    && (!l.any ==> l.c == [] && k0 == ss)
  }

  ghost function ZrlPart(h: Table, l: Local, k: nat, eob: nat): seq<bool>
    requires Legal(h)
  {
    if l.r > 15 && k <= eob then SymBits(h, ZRL) + (l.br + ZrlBits(h, l.r - 16)) else []
  }

  /** The run-length-16 codes due before coefficient i. */
  lemma RefineZrlDecodes(h: Table, z: Block, before: Block, ss: nat, se: nat, al: nat, eob: nat, i: nat, l: Local, k0: nat, q: nat, t: seq<bool>)
    returns (k1: nat, q1: nat)
    requires Legal(h) && Band(ss, se) && Known(before, z, ss, se, al) && ss <= i <= se
    requires Stretch(z, al, ss, eob, i, l, k0, q) && RefineZrl(h, l, i, eob).ok
    ensures Stretch(z, al, ss, eob, i, RefineZrl(h, l, i, eob), k1, q1)
    ensures i <= eob ==> RefineZrl(h, l, i, eob).r <= 15
    ensures DecodeRefine(h, Mix(Improve(before, z, ss, se, al), before, k0), k0, se, al, ZrlPart(h, l, i, eob) + t)
         == DecodeRefine(h, Mix(Improve(before, z, ss, se, al), before, k1), k1, se, al, t)
  {
    hide Known, EobAt, Legal, Listed, Serial, SymBits, TakeBits, DecodeRefine, Advance, Mag, Point, Mix, Improve, ZrlBits, Corrections, Zeros;
    if l.r > 15 && i <= eob {
      var after := Improve(before, z, ss, se, al);
      var rest := l.br + (ZrlBits(h, l.r - 16) + t);
      StretchStarts(z, al, k0, eob);
      var m := q + (15 - Zeros(z, al, k0, q));
      var b := ZrlPart(h, l, i, eob) + t;
      assert b == SymBits(h, ZRL) + rest;
      SymDecodes(h, ZRL, rest);
      SixteenthZero(z, before, ss, se, al, k0, q, m, ZrlBits(h, l.r - 16) + t);
      RefineNext(h, Mix(after, before, k0), k0, se, al, b, 15, 0, rest);
      RefineZrlSkips(h, z, before, ss, se, al, m + 1, l.r - 16, t);
      k1 := i - l.r % 16;
      StretchStarts(z, al, k1, eob);
      q1 := k1;
    } else {
      assert [] + t == t;
      k1, q1 := k0, q;
    }
  }

  /** A newly nonzero coefficient. */
  lemma RefineSymbol(h: Table, z: Block, before: Block, ss: nat, se: nat, al: nat, eob: nat, i: nat, l: Local, k0: nat, q: nat, t: seq<bool>)
    requires Legal(h) && Band(ss, se) && Known(before, z, ss, se, al) && ss <= i <= se
    requires Stretch(z, al, ss, eob, i, l, k0, q) && l.r <= 15 && Mag(z[i], al) == 1 && Listed(h, 16 * l.r + 1)
    ensures DecodeRefine(h, Mix(Improve(before, z, ss, se, al), before, k0), k0, se, al,
              SymBits(h, 16 * l.r + 1) + ([z[i] >= 0] + (l.br + t)))
         == DecodeRefine(h, Mix(Improve(before, z, ss, se, al), before, i + 1), i + 1, se, al, t)
  {
    hide Legal, Listed, Serial, SymBits, TakeBits, DecodeRefine, Advance, Mag, Point, Mix, Improve, ZrlBits, Shl;
    var after := Improve(before, z, ss, se, al);
    var rest := [z[i] >= 0] + (l.br + t);
    SymDecodes(h, 16 * l.r + 1, rest);
    assert rest[1..] == l.br + t;
    AllZero(z, al, k0, q, i);
    AdvanceSpan(z, before, ss, se, al, k0, i, l.r, t);
    AdvanceStep(z, before, ss, se, al, i, 0, t);
    RefineNext(h, Mix(after, before, k0), k0, se, al, SymBits(h, 16 * l.r + 1) + rest, l.r, 1, rest);
    NewlyNonzero(z[i], al);
    MixSet(after, before, i, i);
  }

  lemma RefineZrlShape(h: Table, l: Local, k: nat, eob: nat)
    requires Legal(h)
    ensures RefineZrl(h, l, k, eob).c == l.c + ZrlPart(h, l, k, eob)
    ensures RefineZrl(h, l, k, eob).ok ==> l.ok
    ensures l.any ==> RefineZrl(h, l, k, eob).any
  {
    hide Legal, Listed, SymBits, ZrlBits;
  }

  /** After the encoder has looked at the coefficients below k, its output decodes to the state that
      starts at the last symbol, whatever follows. */
  lemma {:induction false} RefineInv(h: Table, z: Block, before: Block, ss: nat, se: nat, al: nat, eob: nat, k: nat, t: seq<bool>)
    returns (k0: nat, q: nat)
    requires Legal(h) && Band(ss, se) && Known(before, z, ss, se, al) && ss <= k <= se + 1
    requires eob == EobAt(z, al, ss, se + 1) && RefineUpTo(h, z, al, ss, eob, k).ok
    ensures Stretch(z, al, ss, eob, k, RefineUpTo(h, z, al, ss, eob, k), k0, q)
    ensures DecodeRefine(h, before, ss, se, al, RefineUpTo(h, z, al, ss, eob, k).c + t)
         == DecodeRefine(h, Mix(Improve(before, z, ss, se, al), before, k0), k0, se, al, t)
    decreases k, 1
  {
    hide Legal, Listed, Serial, SymBits, TakeBits, DecodeRefine, Advance, Mag, Point, Mix, Improve, ZrlBits, Corrections, Zeros;
    if k == ss {
      MixStarts(Improve(before, z, ss, se, al), before, ss);
      assert [] + t == t;
      StretchStarts(z, al, ss, eob);
      k0, q := ss, ss;
    } else if Mag(z[k - 1], al) == 0 {
      k0, q := RefineInv(h, z, before, ss, se, al, eob, k - 1, t);
    } else if Mag(z[k - 1], al) > 1 {
      k0, q := RefineInvCorrection(h, z, before, ss, se, al, eob, k, t);
    } else {
      k0, q := RefineInvSymbol(h, z, before, ss, se, al, eob, k, t);
    }
  }

  lemma StretchStarts(z: Block, al: nat, k: nat, eob: nat)
    requires k <= 64
    ensures Corrections(z, al, k, k) == [] && Zeros(z, al, k, k) == 0
  {
  }

  lemma {:induction false} RefineInvCorrection(h: Table, z: Block, before: Block, ss: nat, se: nat, al: nat, eob: nat, k: nat, t: seq<bool>)
    returns (k0: nat, q: nat)
    requires Legal(h) && Band(ss, se) && Known(before, z, ss, se, al) && ss <= k <= se + 1
    requires eob == EobAt(z, al, ss, se + 1) && RefineUpTo(h, z, al, ss, eob, k).ok
    requires ss < k && Mag(z[k - 1], al) > 1
    ensures Stretch(z, al, ss, eob, k, RefineUpTo(h, z, al, ss, eob, k), k0, q)
    ensures DecodeRefine(h, before, ss, se, al, RefineUpTo(h, z, al, ss, eob, k).c + t)
         == DecodeRefine(h, Mix(Improve(before, z, ss, se, al), before, k0), k0, se, al, t)
    decreases k, 0
  {
    hide Known, EobAt, Legal, Listed, Serial, SymBits, TakeBits, DecodeRefine, Advance, Mag, Point, Mix, Improve, ZrlBits, ZrlPart, RefineZrl;
    var i := k - 1;
    var l := RefineUpTo(h, z, al, ss, eob, i);
    var x := ZrlPart(h, l, i, eob);
    RefineZrlShape(h, l, i, eob);
    k0, q := RefineInv(h, z, before, ss, se, al, eob, i, x + t);
    assert l.c + x + t == l.c + (x + t);
    k0, q := RefineZrlDecodes(h, z, before, ss, se, al, eob, i, l, k0, q, t);
    AllZero(z, al, k0, q, i);
    q := k;
  }

  lemma {:induction false} RefineInvSymbol(h: Table, z: Block, before: Block, ss: nat, se: nat, al: nat, eob: nat, k: nat, t: seq<bool>)
    returns (k0: nat, q: nat)
    requires Legal(h) && Band(ss, se) && Known(before, z, ss, se, al) && ss <= k <= se + 1
    requires eob == EobAt(z, al, ss, se + 1) && RefineUpTo(h, z, al, ss, eob, k).ok
    requires ss < k && Mag(z[k - 1], al) == 1
    ensures Stretch(z, al, ss, eob, k, RefineUpTo(h, z, al, ss, eob, k), k0, q)
    ensures DecodeRefine(h, before, ss, se, al, RefineUpTo(h, z, al, ss, eob, k).c + t)
         == DecodeRefine(h, Mix(Improve(before, z, ss, se, al), before, k0), k0, se, al, t)
    decreases k, 0
  {
    hide Legal, Listed, Serial, SymBits, TakeBits, DecodeRefine, Advance, Mag, Point, Mix, Improve, ZrlBits, ZrlPart, RefineZrl, Corrections, Zeros;
    var i := k - 1;
    var l, v := RefineUpTo(h, z, al, ss, eob, i), z[i];
    var x, l' := ZrlPart(h, l, i, eob), RefineZrl(h, l, i, eob);
    RefineZrlShape(h, l, i, eob);
    EobLast(z, al, ss, se + 1, i);
    var sym, bit := SymBits(h, 16 * l'.r + 1), [v >= 0];
    var t1 := sym + (bit + (l'.br + t));
    k0, q := RefineInv(h, z, before, ss, se, al, eob, i, x + t1);
    assert l.c + x + (sym + (bit + l'.br)) + t == l.c + (x + t1);
    k0, q := RefineZrlDecodes(h, z, before, ss, se, al, eob, i, l, k0, q, t1);
    RefineSymbol(h, z, before, ss, se, al, eob, i, l', k0, q, t);
    StretchStarts(z, al, k, eob);
    k0, q := k, k;
  }

  lemma {:induction false} EobLast(z: Block, al: nat, ss: nat, k: nat, i: nat)
    requires ss <= i < k <= 64 && Mag(z[i], al) == 1
    ensures i <= EobAt(z, al, ss, k)
    decreases k
  {
    hide Mag;
    if i < k - 1 { EobLast(z, al, ss, k - 1, i); }
  }

  lemma {:induction false} ZerosBound(z: Block, al: nat, i: nat, j: nat)
    requires i <= j <= 64
    ensures Zeros(z, al, i, j) <= j - i
    decreases j
  {
    if i < j { ZerosBound(z, al, i, j - 1); }
  }

  /** Corrections after the last symbol of a block, or through a block inside an EOB run. */
  lemma RefineTail(z: Block, before: Block, ss: nat, se: nat, al: nat, eob: nat, l: Local, k0: nat, q: nat, run: nat, t: seq<bool>)
    requires Band(ss, se) && Known(before, z, ss, se, al) && run > 0
    requires Stretch(z, al, ss, eob, se + 1, l, k0, q)
    ensures Tail(Mix(Improve(before, z, ss, se, al), before, k0), k0, se, al, l.br + t, run)
         == Some((Improve(before, z, ss, se, al), t, run - 1))
    ensures l.r > 0 || l.br != [] ==> k0 <= se
    ensures l.r == 0 && l.br == [] ==> k0 == se + 1
  {
    hide Advance, Mag, Point, Mix, Improve;
    var after := Improve(before, z, ss, se, al);
    AllZero(z, al, k0, q, se + 1);
    ZerosBound(z, al, k0, se + 1);
    AdvanceSpan(z, before, ss, se, al, k0, se + 1, 64, t);
    AdvanceEnds(Mix(after, before, se + 1), se, al, 64 - Zeros(z, al, k0, se + 1), t);
    MixEnds(after, before, se + 1);
    if k0 <= se {
      assert Mag(z[se], al) != 1;
    }
  }

  lemma AdvanceEnds(z: Block, se: nat, al: nat, r: nat, b: seq<bool>)
    requires se <= 63
    ensures Advance(z, se + 1, se, al, r, b) == Some((z, se + 1, b))
  {
  }

  /** The block as the decoder improves it: with the EOB run the encoder will announce when zeros or
      corrections are left over, without one when none are, and inside a run announced earlier. */
  lemma RefineDecodes(h: Table, z: Block, before: Block, ss: nat, se: nat, al: nat, run: nat, t: seq<bool>)
    requires Legal(h) && Band(ss, se) && Known(before, z, ss, se, al)
    requires RefineUpTo(h, z, al, ss, EobAt(z, al, ss, se + 1), se + 1).ok
    ensures var l := RefineUpTo(h, z, al, ss, EobAt(z, al, ss, se + 1), se + 1);
      var after := Improve(before, z, ss, se, al);
      && (l.r == 0 && l.br == [] ==> DecodeRefine(h, before, ss, se, al, l.c + t) == Some((after, t, 0)))
      && ((l.r > 0 || l.br != []) && 0 < run <= 0x7FFF && Listed(h, EobSym(run)) ==>
           DecodeRefine(h, before, ss, se, al, l.c + (EobBits(h, run) + (l.br + t))) == Some((after, t, run - 1)))
      && (!l.any ==> l.c == [] && (l.r > 0 || l.br != []))
      && (!l.any && run > 0 ==> Tail(before, ss, se, al, l.br + t, run) == Some((after, t, run - 1)))
  {
    hide Legal, Listed, Serial, SymBits, TakeBits, ZrlBits, Mag, Point, EobSym, Bin, NBits, Mix, Pow2, DecodeRefine,
      Improve, RefineUpTo, EobAt, Tail, EobBits;
    var eob := EobAt(z, al, ss, se + 1);
    var l := RefineUpTo(h, z, al, ss, eob, se + 1);
    var after := Improve(before, z, ss, se, al);
    var k0, q := RefineInv(h, z, before, ss, se, al, eob, se + 1, t);
    RefineTail(z, before, ss, se, al, eob, l, k0, q, 1, t);
    if l.r == 0 && l.br == [] {
      MixEnds(after, before, se + 1);
      RefineOver(h, after, se + 1, se, al, t);
    }
    if 0 < run {
      if !l.any {
        MixStarts(after, before, ss);
        RefineTail(z, before, ss, se, al, eob, l, k0, q, run, t);
      }
      if (l.r > 0 || l.br != []) && run <= 0x7FFF && Listed(h, EobSym(run)) {
        var b := EobBits(h, run) + (l.br + t);
        var n := NBits(run) - 1;
        k0, q := RefineInv(h, z, before, ss, se, al, eob, se + 1, b);
        RefineTail(z, before, ss, se, al, eob, l, k0, q, run, t);
        EobDecodes(h, run, l.br + t);
        RefineNext(h, Mix(after, before, k0), k0, se, al, b, n, 0, Bin(run, n) + (l.br + t));
      }
    }
  }

  lemma RefineOver(h: Table, z: Block, k: nat, se: nat, al: nat, b: seq<bool>)
    requires Legal(h) && se < k && se <= 63
    ensures DecodeRefine(h, z, k, se, al, b) == Some((z, b, 0))
  {
  }
}
