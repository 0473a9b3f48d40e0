// Suspension in decode_mcu and the DC decoders: what has been decoded already is decoded again to the
// same values.
module McuReplay {
  import opened Wrappers
  import opened Bits
  import opened HuffmanTable
  import opened Coefficients
  import opened AcBlocks
  import opened AcScan
  import opened AcReplay
  import opened McuScan

  /** Coefficients before position k are not touched again. */
  lemma {:induction false} SequentialKeeps(h: Table, z: Block, k: nat, b: seq<bool>, i: nat)
    requires Legal(h) && i < k && i < 64 && Resume(h, WHOLE_BAND, z, k, b).Some?
    ensures Resume(h, WHOLE_BAND, z, k, b).value.0[i] == z[i]
    decreases 64 - k
  {
    hide Legal, ReadSym, Resume;
    if k > 63 {
      ResumeEnds(h, WHOLE_BAND, z, k, b);
    } else {
      FirstBySym(h, WHOLE_BAND, z, k, b);
      var (sym, b1) := ReadSym(h, WHOLE_BAND, b).value;
      if sym.Pass? { SequentialKeeps(h, Store(z, k + sym.r, sym.v), k + sym.r + 1, b1, i); }
    }
  }

  /** Two consecutive pieces of a bit string. */
  lemma Pieces(b: seq<bool>, b1: seq<bool>, b2: seq<bool>, x: seq<bool>)
    requires |b2| <= |b1| <= |b| && b == b[..|b| - |b1|] + b1 && b1 == b1[..|b1| - |b2|] + b2
    ensures b == b[..|b| - |b2|] + b2
    ensures b[..|b| - |b2|] + x == b[..|b| - |b1|] + (b1[..|b1| - |b2|] + x)
  {
    assert b[..|b| - |b2|] == b[..|b| - |b1|] + b1[..|b1| - |b2|];
  }

  /** The AC part of a block reads its own bits and no others, and reads them alike when its values are
      already in place. */
  lemma {:induction false} SequentialAgain(h: Table, z: Block, y: Block, k: nat, b: seq<bool>, x: seq<bool>)
    requires Legal(h) && 1 <= k && Resume(h, WHOLE_BAND, z, k, b).Some?
    requires y == z || y == Resume(h, WHOLE_BAND, z, k, b).value.0
    ensures var (z', b', _) := Resume(h, WHOLE_BAND, z, k, b).value;
      && |b'| <= |b| && b == b[..|b| - |b'|] + b'
      && Resume(h, WHOLE_BAND, y, k, b[..|b| - |b'|] + x) == Some((z', x, 0))
    decreases 64 - k
  {
    hide Legal, ReadSym, Resume, Store;
    var (z', b', _) := Resume(h, WHOLE_BAND, z, k, b).value;
    if k > 63 {
      ResumeEnds(h, WHOLE_BAND, z, k, b);
      ResumeEnds(h, WHOLE_BAND, y, k, [] + x);
      assert [] + x == x;
    } else {
      FirstBySym(h, WHOLE_BAND, z, k, b);
      var (sym, b1) := ReadSym(h, WHOLE_BAND, b).value;
      SymLocal(h, WHOLE_BAND, b, x);
      if sym.Pass? {
        var z1, k1 := Store(z, k + sym.r, sym.v), k + sym.r + 1;
        StoredAlready(h, z1, k + sym.r, sym.v, b1, z);
        SequentialAgain(h, z1, Store(y, k + sym.r, sym.v), k1, b1, x);
        var e2 := b1[..|b1| - |b'|];
        Pieces(b, b1, b', x);
        SymLocal(h, WHOLE_BAND, b, e2 + x);
        FirstBySym(h, WHOLE_BAND, y, k, b[..|b| - |b1|] + (e2 + x));
      } else {
        FirstBySym(h, WHOLE_BAND, y, k, b[..|b| - |b1|] + x);
        SequentialRun(h, b);
      }
    }
  }

  /** A value just stored is still there at the end. */
  lemma StoredAlready(h: Table, z1: Block, k: nat, v: Option<int>, b: seq<bool>, z: Block)
    requires Legal(h) && z1 == Store(z, k, v) && Resume(h, WHOLE_BAND, z1, k + 1, b).Some?
    ensures var z' := Resume(h, WHOLE_BAND, z1, k + 1, b).value.0;
      Store(z', k, v) == z'
  {
    hide Legal, Resume;
    var z' := Resume(h, WHOLE_BAND, z1, k + 1, b).value.0;
    if v.Some? {
      SequentialKeeps(h, z1, k + 1, b, Clip(k));
      assert z'[Clip(k) := v.value] == z';
    }
  }

  lemma SequentialRun(h: Table, b: seq<bool>)
    requires Legal(h) && ReadSym(h, WHOLE_BAND, b).Some? && ReadSym(h, WHOLE_BAND, b).value.0.Eob?
    ensures ReadSym(h, WHOLE_BAND, b).value.0.run == 1
  {
    hide Serial, Legal;
  }

  lemma ReadDcLocal(h: Table, b: seq<bool>, x: seq<bool>)
    requires Legal(h) && ReadDc(h, b).Some?
    ensures var (d, b') := ReadDc(h, b).value;
      |b'| <= |b| && b == b[..|b| - |b'|] + b' && ReadDc(h, b[..|b| - |b'|] + x) == Some((d, x))
  {
    hide Serial, Extend, Legal;
    var (s, b1) := Serial(h, b).value;
    var b' := ReadDc(h, b).value.1;
    var n := |b1| - |b'|;
    SerialLocal(h, b, b1[..n] + x);
    var e := b[..|b| - |b1|];
    assert b[..|b| - |b'|] == e + b1[..n];
    assert b[..|b| - |b'|] + x == e + (b1[..n] + x);
    assert n == 0 ==> b1[..n] + x == x;
    assert (b1[..n] + x)[..n] == b1[..n] && (b1[..n] + x)[n..] == x;
  }

  lemma WholeAgain(c: Coder, ci: component, last: int, z: Block, y: Block, b: seq<bool>, x: seq<bool>)
    requires ValidCoder(c) && c.mode.Whole? && DecodeItem(c, ci, last, z, b).Some?
    requires y == z || y == DecodeItem(c, ci, last, z, b).value.0
    ensures var (z', s, b') := DecodeItem(c, ci, last, z, b).value;
      && |b'| <= |b| && b == b[..|b| - |b'|] + b'
      && DecodeItem(c, ci, last, y, b[..|b| - |b'|] + x) == Some((z', s, x))
  {
    hide Legal, ReadDc, DecodeBlock, Resume, SmallSymbols;
    var (z', s, b') := DecodeItem(c, ci, last, z, b).value;
    var (d, b1) := ReadDc(c.dc[ci], b).value;
    var z1 := z[0 := s];
    BlockResumes(c.ac[ci], WHOLE_BAND, z1, b1);
    SequentialKeeps(c.ac[ci], z1, 1, b1, 0);
    assert y[0 := s] == if y == z then z1 else z';
    SequentialAgain(c.ac[ci], z1, y[0 := s], 1, b1, x);
    ReadDcLocal(c.dc[ci], b, b1[..|b1| - |b'|] + x);
    Pieces(b, b1, b', x);
    BlockResumes(c.ac[ci], WHOLE_BAND, y[0 := s], b1[..|b1| - |b'|] + x);
  }

  lemma RefineAgain(c: Coder, ci: component, last: int, z: Block, y: Block, b: seq<bool>, x: seq<bool>)
    requires ValidCoder(c) && c.mode.DcRefine? && DecodeItem(c, ci, last, z, b).Some?
    requires y == z || y == DecodeItem(c, ci, last, z, b).value.0
    ensures var (z', s, b') := DecodeItem(c, ci, last, z, b).value;
      && |b'| <= |b| && b == b[..|b| - |b'|] + b'
      && DecodeItem(c, ci, last, y, b[..|b| - |b'|] + x) == Some((z', s, x))
  {
    hide Legal, SmallSymbols, AddBit;
    var z' := DecodeItem(c, ci, last, z, b).value.0;
    assert b[..1] == [b[0]] && ([b[0]] + x)[1..] == x && ([b[0]] + x)[0] == b[0];
    AddBitTwice(z[0], c.mode.al);
    assert z'[0 := z'[0]] == z';
  }

  lemma FirstAgain(c: Coder, ci: component, last: int, z: Block, y: Block, b: seq<bool>, x: seq<bool>)
    requires ValidCoder(c) && c.mode.DcFirst? && DecodeItem(c, ci, last, z, b).Some?
    requires y == z || y == DecodeItem(c, ci, last, z, b).value.0
    ensures var (z', s, b') := DecodeItem(c, ci, last, z, b).value;
      && |b'| <= |b| && b == b[..|b| - |b'|] + b'
      && DecodeItem(c, ci, last, y, b[..|b| - |b'|] + x) == Some((z', s, x))
  {
    hide Legal, SmallSymbols, ReadDc, Shl;
    ReadDcLocal(c.dc[ci], b, x);
    var z' := DecodeItem(c, ci, last, z, b).value.0;
    assert z'[0 := z'[0]] == z';
  }

  /** One block: it reads its own bits, and alike when it is already decoded. */
  lemma ItemAgain(c: Coder, ci: component, last: int, z: Block, y: Block, b: seq<bool>, x: seq<bool>)
    requires ValidCoder(c) && DecodeItem(c, ci, last, z, b).Some?
    requires y == z || y == DecodeItem(c, ci, last, z, b).value.0
    ensures var (z', s, b') := DecodeItem(c, ci, last, z, b).value;
      && |b'| <= |b| && b == b[..|b| - |b'|] + b'
      && DecodeItem(c, ci, last, y, b[..|b| - |b'|] + x) == Some((z', s, x))
  {
    hide Legal, SmallSymbols, DecodeItem;
    match c.mode {
      case DcRefine(_) => RefineAgain(c, ci, last, z, y, b, x);
      case DcFirst(_) => FirstAgain(c, ci, last, z, y, b, x);
      case Whole => WholeAgain(c, ci, last, z, y, b, x);
    }
  }

  lemma AddBitTwice(v: int, al: nat)
    ensures AddBit(AddBit(v, al), al) == AddBit(v, al)
  {
    if !BitSet(v, al) {
      SplitAt(v, al);
      ShlAdd(Shr(v, al), 1, al);
      JoinAt(Shr(v, al) + 1, Low(v, al), al);
    }
  }

  /** Of the items before, the first ones have been decoded to `afters` from the bits e; decoding them
      again, from the original blocks or from the decoded ones, does the same whatever comes next. */
  ghost predicate Replays(c: Coder, last0: seq<int>, befores: seq<Item>, afters: seq<Item>, last: seq<int>, e: seq<bool>)
    requires ValidCoder(c) && |last0| == MAX_COMPS_IN_SCAN
  {
    && |last| == MAX_COMPS_IN_SCAN && |befores| == |afters|
    && forall x: seq<bool> ::
         GetAll(c, last0, befores, e + x) == GetAll(c, last0, afters, e + x) == Some((Blocks(afters), last, x))
  }

  lemma ReplaysNone(c: Coder, last0: seq<int>)
    requires ValidCoder(c) && |last0| == MAX_COMPS_IN_SCAN
    ensures Replays(c, last0, [], [], last0, [])
  {
    assert Blocks([]) == [];
    forall x: seq<bool> ensures GetAll(c, last0, [], [] + x) == Some(([], last0, x)) { assert [] + x == x; }
  }

  lemma ReplaysNext(c: Coder, last0: seq<int>, befores: seq<Item>, afters: seq<Item>, last: seq<int>, e: seq<bool>,
                    x: Item, b: seq<bool>) returns (e': seq<bool>)
    requires ValidCoder(c) && |last0| == MAX_COMPS_IN_SCAN && Replays(c, last0, befores, afters, last, e)
    requires DecodeItem(c, x.ci, last[x.ci], x.z, b).Some?
    ensures var (z, s, b') := DecodeItem(c, x.ci, last[x.ci], x.z, b).value;
      Replays(c, last0, befores + [x], afters + [Item(x.ci, z)], last[x.ci := s], e') && e + b == e' + b'
  {
    hide DecodeItem, Legal, SmallSymbols;
    var (z, s, b') := DecodeItem(c, x.ci, last[x.ci], x.z, b).value;
    ItemAgain(c, x.ci, last[x.ci], x.z, z, b, []);
    var e1 := b[..|b| - |b'|];
    e' := e + e1;
    var last', xs, ys := last[x.ci := s], befores + [x], afters + [Item(x.ci, z)];
    assert xs[..|befores|] == befores && ys[..|afters|] == afters && Blocks(ys) == Blocks(afters) + [z];
    forall t: seq<bool> ensures GetAll(c, last0, xs, e' + t) == GetAll(c, last0, ys, e' + t) == Some((Blocks(ys), last', t)) {
      assert e' + t == e + (e1 + t);
      ItemAgain(c, x.ci, last[x.ci], x.z, x.z, b, t);
      ItemAgain(c, x.ci, last[x.ci], x.z, z, b, t);
    }
  }

  /** If some of the blocks cannot be decoded, all of them cannot. */
  lemma {:induction false} GetPrefix(c: Coder, last0: seq<int>, xs: seq<Item>, more: seq<Item>, b: seq<bool>)
    requires ValidCoder(c) && |last0| == MAX_COMPS_IN_SCAN && GetAll(c, last0, xs + more, b).Some?
    ensures GetAll(c, last0, xs, b).Some?
    decreases |more|
  {
    hide DecodeItem, Legal, SmallSymbols;
    if more == [] {
      assert xs + more == xs;
    } else {
      assert (xs + more)[..|xs + more| - 1] == xs + more[..|more| - 1];
      GetPrefix(c, last0, xs, more[..|more| - 1], b);
    }
  }

  lemma {:induction false} GetSame(c: Coder, last0: seq<int>, xs: seq<Item>, ys: seq<Item>, more: seq<Item>, b: seq<bool>)
    requires ValidCoder(c) && |last0| == MAX_COMPS_IN_SCAN && GetAll(c, last0, xs, b) == GetAll(c, last0, ys, b)
    ensures GetAll(c, last0, xs + more, b) == GetAll(c, last0, ys + more, b)
    decreases |more|
  {
    hide DecodeItem, Legal, SmallSymbols;
    if more == [] {
      assert xs + more == xs && ys + more == ys;
    } else {
      var n := |more| - 1;
      assert (xs + more)[..|xs + more| - 1] == xs + more[..n] && (ys + more)[..|ys + more| - 1] == ys + more[..n];
      GetSame(c, last0, xs, ys, more[..n], b);
    }
  }

  /** Suspension inside block k: the blocks before it are decoded, the one after it untouched. */
  lemma McuStopped(c: Coder, last0: seq<int>, befores: seq<Item>, afters: seq<Item>, last: seq<int>, e: seq<bool>,
                   ci: component, was: Block, now: Block, more: seq<Item>, b: seq<bool>)
    requires ValidCoder(c) && |last0| == MAX_COMPS_IN_SCAN && Replays(c, last0, befores, afters, last, e)
    requires forall x: seq<bool> :: DecodeItem(c, ci, last[ci], now, b + x) == DecodeItem(c, ci, last[ci], was, b + x)
    ensures forall x: seq<bool> ::
      GetAll(c, last0, afters + [Item(ci, now)] + more, e + b + x) == GetAll(c, last0, befores + [Item(ci, was)] + more, e + b + x)
  {
    hide DecodeItem, Legal, SmallSymbols, GetAll;
    var xs, ys := afters + [Item(ci, now)], befores + [Item(ci, was)];
    forall x: seq<bool> ensures GetAll(c, last0, xs + more, e + b + x) == GetAll(c, last0, ys + more, e + b + x) {
      assert e + b + x == e + (b + x);
      GetNext(c, last0, afters, Item(ci, now), e + (b + x));
      GetNext(c, last0, befores, Item(ci, was), e + (b + x));
      GetSame(c, last0, xs, ys, more, e + (b + x));
    }
  }
}
