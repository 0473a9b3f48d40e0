// Bits that are not needed do not matter: what has been decoded completely from the bits at hand is decoded in
// the same way when more bits follow.
module MoreBits {
  import opened Wrappers
  import opened Bits
  import opened HuffmanTable
  import opened Coefficients
  import opened AcBlocks
  import opened AcScan
  import opened McuScan

  /** A result with more bits behind those that it leaves. */
  function Longer(r: Result, x: seq<bool>): Result {
    match r
    case None => None
    case Some((z, b, run)) => Some((z, b + x, run))
  }

  lemma TakeMore(b: seq<bool>, n: nat, x: seq<bool>)
    requires TakeBits(b, n).Some?
    ensures TakeBits(b + x, n) == Some((TakeBits(b, n).value.0, TakeBits(b, n).value.1 + x))
  {
    assert (b + x)[..n] == b[..n] && (b + x)[n..] == b[n..] + x;
  }

  lemma {:induction false} FirstMore(h: Table, z: Block, k: nat, se: nat, al: nat, b: seq<bool>, x: seq<bool>)
    requires Legal(h) && se <= 63 && DecodeFirst(h, z, k, se, al, b).Some?
    ensures DecodeFirst(h, z, k, se, al, b + x) == Longer(DecodeFirst(h, z, k, se, al, b), x)
    decreases 64 - k
  {
    hide Legal, Serial, TakeBits, Extend, Shl, Pow2;
    if k <= se {
      var (sym, b1) := Serial(h, b).value;
      var r, s := sym / 16, sym % 16;
      SerialExtends(h, b, x);
      if s != 0 {
        TakeMore(b1, s, x);
        var (v, b2) := TakeBits(b1, s).value;
        FirstMore(h, z[Clip(k + r) := Shl(Extend(v, s), al)], k + r + 1, se, al, b2, x);
      } else if r == 15 {
        FirstMore(h, z, k + 16, se, al, b1, x);
      } else {
        TakeMore(b1, r, x);
      }
    }
  }

  lemma {:induction false} SequentialMore(h: Table, z: Block, k: nat, se: nat, al: nat, b: seq<bool>, x: seq<bool>)
    requires Legal(h) && se <= 63 && DecodeSequential(h, z, k, se, al, b).Some?
    ensures DecodeSequential(h, z, k, se, al, b + x) == Longer(DecodeSequential(h, z, k, se, al, b), x)
    decreases 64 - k
  {
    hide Legal, Serial, TakeBits, Extend, Shl;
    if k <= se {
      var (sym, b1) := Serial(h, b).value;
      var r, s := sym / 16, sym % 16;
      SerialExtends(h, b, x);
      if s != 0 {
        TakeMore(b1, s, x);
        var (v, b2) := TakeBits(b1, s).value;
        SequentialMore(h, z[Clip(k + r) := Shl(Extend(v, s), al)], k + r + 1, se, al, b2, x);
      } else if r == 15 {
        SequentialMore(h, z, k + 16, se, al, b1, x);
      }
    }
  }

  lemma {:induction false} AdvanceMore(z: Block, k: nat, se: nat, al: nat, r: nat, b: seq<bool>, x: seq<bool>)
    requires se <= 63 && k <= se + 1 && Advance(z, k, se, al, r, b).Some?
    ensures var (z', k', b') := Advance(z, k, se, al, r, b).value;
      Advance(z, k, se, al, r, b + x) == Some((z', k', b' + x))
    decreases se + 1 - k
  {
    hide Bump;
    if k <= se {
      if z[k] != 0 {
        assert (b + x)[0] == b[0] && (b + x)[1..] == b[1..] + x;
        AdvanceMore(z[k := if b[0] then Bump(z[k], al) else z[k]], k + 1, se, al, r, b[1..], x);
      } else if r > 0 {
        AdvanceMore(z, k + 1, se, al, r - 1, b, x);
      }
    }
  }

  lemma TailMore(z: Block, k: nat, se: nat, al: nat, b: seq<bool>, run: nat, x: seq<bool>)
    requires se <= 63 && k <= se + 1 && run > 0 && Tail(z, k, se, al, b, run).Some?
    ensures Tail(z, k, se, al, b + x, run) == Longer(Tail(z, k, se, al, b, run), x)
  {
    hide Advance;
    AdvanceMore(z, k, se, al, 64, b, x);
  }

  lemma {:induction false} RefineMore(h: Table, z: Block, k: nat, se: nat, al: nat, b: seq<bool>, x: seq<bool>)
    requires Legal(h) && se <= 63 && DecodeRefine(h, z, k, se, al, b).Some?
    ensures DecodeRefine(h, z, k, se, al, b + x) == Longer(DecodeRefine(h, z, k, se, al, b), x)
    decreases 64 - k
  {
    hide Legal, Serial, TakeBits, Advance, Tail, Shl, Pow2;
    if k <= se {
      var (sym, b1) := Serial(h, b).value;
      var r, s := sym / 16, sym % 16;
      SerialExtends(h, b, x);
      if s != 0 {
        assert (b1 + x)[0] == b1[0] && (b1 + x)[1..] == b1[1..] + x;
        AdvanceMore(z, k, se, al, r, b1[1..], x);
        var (z', k', b') := Advance(z, k, se, al, r, b1[1..]).value;
        RefineMore(h, z'[Clip(k') := if b1[0] then Shl(1, al) else Shl(-1, al)], k' + 1, se, al, b', x);
      } else if r == 15 {
        AdvanceMore(z, k, se, al, 15, b1, x);
        var (z', k', b') := Advance(z, k, se, al, 15, b1).value;
        RefineMore(h, z', k' + 1, se, al, b', x);
      } else {
        TakeMore(b1, r, x);
        var (v, b2) := TakeBits(b1, r).value;
        Pow2Positive(r);
        TailMore(z, k, se, al, b2, Pow2(r) + v, x);
      }
    }
  }

  /** A block of any kind of AC scan. */
  lemma BlockMore(h: Table, p: Params, z: Block, b: seq<bool>, run: nat, x: seq<bool>)
    requires Legal(h) && InBand(p) && DecodeBlock(h, p, z, b, run).Some?
    ensures DecodeBlock(h, p, z, b + x, run) == Longer(DecodeBlock(h, p, z, b, run), x)
  {
    hide Legal, Tail, DecodeFirst, DecodeRefine, DecodeSequential;
    if run > 0 {
      if p.kind.Refine? { TailMore(z, p.ss, p.se, p.al, b, run, x); }
    } else {
      match p.kind {
        case Refine => RefineMore(h, z, p.ss, p.se, p.al, b, x);
        case Initial => FirstMore(h, z, p.ss, p.se, p.al, b, x);
        case Sequential => SequentialMore(h, z, p.ss, p.se, p.al, b, x);
      }
    }
  }

  // ---------- MCUs ----------

  lemma DcMore(h: Table, b: seq<bool>, x: seq<bool>)
    requires Legal(h) && ReadDc(h, b).Some?
    ensures ReadDc(h, b + x) == Some((ReadDc(h, b).value.0, ReadDc(h, b).value.1 + x))
  {
    hide Legal, Serial, TakeBits, Extend;
    SerialExtends(h, b, x);
    var (s, b1) := Serial(h, b).value;
    if s != 0 { TakeMore(b1, s, x); }
  }

  lemma ItemMore(c: Coder, ci: component, last: int, z: Block, b: seq<bool>, x: seq<bool>)
    requires ValidCoder(c) && DecodeItem(c, ci, last, z, b).Some?
    ensures var (z', s, rest) := DecodeItem(c, ci, last, z, b).value;
      DecodeItem(c, ci, last, z, b + x) == Some((z', s, rest + x))
  {
    hide Legal, SmallSymbols, ReadDc, DecodeBlock, AddBit, Shl;
    if c.mode.DcRefine? {
      assert (b + x)[0] == b[0] && (b + x)[1..] == b[1..] + x;
    } else {
      DcMore(c.dc[ci], b, x);
      var (d, b1) := ReadDc(c.dc[ci], b).value;
      if c.mode.Whole? { BlockMore(c.ac[ci], WHOLE_BAND, z[0 := d + last], b1, 0, x); }
    }
  }

  lemma {:induction false} ItemsMore(c: Coder, last0: seq<int>, xs: seq<Item>, b: seq<bool>, x: seq<bool>)
    requires ValidCoder(c) && |last0| == MAX_COMPS_IN_SCAN && GetAll(c, last0, xs, b).Some?
    ensures var (zs, last, rest) := GetAll(c, last0, xs, b).value;
      GetAll(c, last0, xs, b + x) == Some((zs, last, rest + x))
    decreases |xs|
  {
    hide Legal, SmallSymbols, DecodeItem;
    if xs != [] {
      var n := |xs| - 1;
      ItemsMore(c, last0, xs[..n], b, x);
      var (zs, last, b1) := GetAll(c, last0, xs[..n], b).value;
      ItemMore(c, xs[n].ci, last[xs[n].ci], xs[n].z, b1, x);
    }
  }
}
