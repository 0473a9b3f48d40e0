// Suspension in the middle of a progressive AC block (jdphuff.c): what has to be true of a block left
// half done so that decoding the same bits again, and more, comes to the same end.
module AcReplay {
  import opened Wrappers
  import opened Bits
  import opened HuffmanTable
  import opened Coefficients
  import opened AcBlocks
  import opened AcScan

  /** The rest of a block from position k, outside an EOB run. */
  function Resume(h: Table, p: Params, z: Block, k: nat, b: seq<bool>): Result
    requires Legal(h) && InBand(p)
  {
    match p.kind
    case Refine => DecodeRefine(h, z, k, p.se, p.al, b)
    case Initial => DecodeFirst(h, z, k, p.se, p.al, b)
    case Sequential => DecodeSequential(h, z, k, p.se, p.al, b)
  }

  /** From a block that is a below k, the bits e lead to position k of a block that is w there,
      whatever the block is from k on and whatever bits come next. */
  ghost predicate Leads(h: Table, p: Params, a: Block, w: Block, k: nat, e: seq<bool>)
    requires Legal(h) && InBand(p) && k <= 64
  {
    forall y: Block, x: seq<bool> :: Resume(h, p, Mix(a, y, k), p.ss, e + x) == Resume(h, p, Mix(w, y, k), k, x)
  }

  lemma LeadsTo(h: Table, p: Params, a: Block, w: Block, k: nat, e: seq<bool>, y: Block, x: seq<bool>)
    requires Legal(h) && InBand(p) && k <= 64 && Leads(h, p, a, w, k, e)
    ensures Resume(h, p, Mix(a, y, k), p.ss, e + x) == Resume(h, p, Mix(w, y, k), k, x)
  {
    hide Resume, Mix, Legal;
  }

  lemma LeadsNowhere(h: Table, p: Params, w: Block)
    requires Legal(h) && InBand(p)
    ensures Leads(h, p, w, w, p.ss, [])
  {
    hide Resume, Mix, Legal;
    forall y: Block, x: seq<bool> ensures Resume(h, p, Mix(w, y, p.ss), p.ss, [] + x) == Resume(h, p, Mix(w, y, p.ss), p.ss, x) {
      assert [] + x == x;
    }
  }

  /** The same inside the loop that passes r zeros. */
  ghost predicate AdvLeads(se: nat, al: nat, a: Block, w: Block, k: nat, k1: nat, r: nat, r1: nat, e: seq<bool>)
    requires k <= k1 <= se + 1 <= 64
  {
    forall y: Block, x: seq<bool> :: Advance(Mix(a, y, k1), k, se, al, r, e + x) == Advance(Mix(w, y, k1), k1, se, al, r1, x)
  }

  lemma AdvTo(se: nat, al: nat, a: Block, w: Block, k: nat, k1: nat, r: nat, r1: nat, e: seq<bool>, y: Block, x: seq<bool>)
    requires k <= k1 <= se + 1 <= 64 && AdvLeads(se, al, a, w, k, k1, r, r1, e)
    ensures Advance(Mix(a, y, k1), k, se, al, r, e + x) == Advance(Mix(w, y, k1), k1, se, al, r1, x)
  {
    hide Advance, Mix;
  }

  lemma AdvNowhere(se: nat, al: nat, a: Block, k: nat, r: nat)
    requires k <= se + 1 <= 64
    ensures AdvLeads(se, al, a, a, k, k, r, r, [])
  {
    hide Advance, Mix;
    forall y: Block, x: seq<bool> ensures Advance(Mix(a, y, k), k, se, al, r, [] + x) == Advance(Mix(a, y, k), k, se, al, r, x) {
      assert [] + x == x;
    }
  }

  /** One trip of that loop. */
  lemma AdvanceOnce(z: Block, k: nat, se: nat, al: nat, r: nat, b: seq<bool>)
    requires k <= se <= 63
    ensures z[k] != 0 && b != [] ==>
      Advance(z, k, se, al, r, b) == Advance(z[k := if b[0] then Bump(z[k], al) else z[k]], k + 1, se, al, r, b[1..])
    ensures z[k] != 0 && b == [] ==> Advance(z, k, se, al, r, b) == None
    ensures z[k] == 0 && r > 0 ==> Advance(z, k, se, al, r, b) == Advance(z, k + 1, se, al, r - 1, b)
    ensures z[k] == 0 && r == 0 ==> Advance(z, k, se, al, r, b) == Some((z, k, b))
  {
    hide Bump;
  }

  /** A correction bit, on the coefficient as it was or as it is after the correction. */
  lemma AdvCorrection(se: nat, al: nat, a: Block, a': Block, w: Block, k: nat, k1: nat, r: nat, r1: nat, e: seq<bool>, bit: bool)
    requires k <= k1 <= se <= 63 && AdvLeads(se, al, a, w, k, k1, r, r1, e)
    requires a'[..k1] == a[..k1] && a'[k1] != 0
    ensures AdvLeads(se, al, a', w[k1 := if bit then Bump(a'[k1], al) else a'[k1]], k, k1 + 1, r, r1, e + [bit])
  {
    hide Advance, Bump;
    var w', e', k2 := w[k1 := if bit then Bump(a'[k1], al) else a'[k1]], e + [bit], k1 + 1;
    forall y: Block, x: seq<bool> ensures Advance(Mix(a', y, k2), k, se, al, r, e' + x) == Advance(Mix(w', y, k2), k2, se, al, r1, x) {
      var y' := Mix(a', y, k2);
      AdvTo(se, al, a, w, k, k1, r, r1, e, y', [bit] + x);
      assert e + [bit] + x == e + ([bit] + x) && ([bit] + x)[1..] == x;
      assert Mix(a, y', k1) == y';
      AdvanceOnce(Mix(w, y', k1), k1, se, al, r1, [bit] + x);
      assert Mix(w, y', k1)[k1 := w'[k1]] == Mix(w', y, k1 + 1);
    }
  }

  lemma AdvZero(se: nat, al: nat, a: Block, a': Block, w: Block, k: nat, k1: nat, r: nat, r1: nat, e: seq<bool>)
    requires k <= k1 <= se <= 63 && AdvLeads(se, al, a, w, k, k1, r, r1, e)
    requires a'[..k1] == a[..k1] && a'[k1] == 0 == w[k1] && r1 > 0
    ensures AdvLeads(se, al, a', w, k, k1 + 1, r, r1 - 1, e)
  {
    hide Advance;
    var k2, r2: nat := k1 + 1, r1 - 1;
    forall y: Block, x: seq<bool> ensures Advance(Mix(a', y, k2), k, se, al, r, e + x) == Advance(Mix(w, y, k2), k2, se, al, r2, x) {
      var y' := Mix(a', y, k2);
      AdvTo(se, al, a, w, k, k1, r, r1, e, y', x);
      assert Mix(a, y', k1) == y';
      AdvanceOnce(Mix(w, y', k1), k1, se, al, r1, x);
      assert Mix(w, y', k1) == Mix(w, y, k1 + 1);
    }
  }

  /** A correction made twice is made once. */
  lemma BumpTwice(c: int, al: nat)
    requires c != 0
    ensures Bump(c, al) != 0 && Bump(Bump(c, al), al) == Bump(c, al)
  {
    if !BitSet(c, al) {
      var s := if c >= 0 then 1 else -1;
      SplitAt(c, al);
      ShlAdd(Shr(c, al), s, al);
      JoinAt(Shr(c, al) + s, Low(c, al), al);
      ShlSign(s, al);
    }
  }

  // ---------- symbols ----------

  /** A symbol with the bits that belong to it: zeros to pass and the value that follows them, if any,
      or the length of an EOB run. */
  datatype Sym = Pass(r: nat, v: Option<int>) | Eob(run: nat)

  function ReadSym(h: Table, p: Params, b: seq<bool>): (m: Option<(Sym, seq<bool>)>)
    requires Legal(h)
    ensures m.Some? && m.value.0.Eob? ==> m.value.0.run > 0
  {
    match Serial(h, b)
    case None => None
    case Some((sym, b1)) =>
      var r, s := sym / 16, sym % 16;
      if s == 0 && r == 15 then Some((Pass(15, None), b1))
      else match TakeBits(b1, ExtraBits(p, r, s))
        case None => None
        case Some((x, b2)) => Some((SymOf(p, r, s, x), b2))
  }

  /** How many bits follow the code for r and s. */
  function ExtraBits(p: Params, r: nat, s: nat): nat {
    if s == 0 then if p.kind.Sequential? then 0 else r else if p.kind.Refine? then 1 else s
  }

  function SymOf(p: Params, r: nat, s: nat, x: nat): Sym {
    if s == 0 then Eob(if p.kind.Sequential? then 1 else Pow2(r) + x)
    else if p.kind.Refine? then Pass(r, Some(if x == 1 then Shl(1, p.al) else Shl(-1, p.al)))
    else Pass(r, Some(Shl(Extend(x, s), p.al)))
  }

  function Store(z: Block, k: nat, v: Option<int>): Block {
    if v.Some? then z[Clip(k) := v.value] else z
  }

  lemma TakeOne(b: seq<bool>)
    ensures b != [] ==> TakeBits(b, 1).Some? && TakeBits(b, 1).value.1 == b[1..] && (TakeBits(b, 1).value.0 == 1 <==> b[0])
  {
    if b != [] { assert b[..1][..0] == []; }
  }

  /** What a refinement scan does on reading a symbol. */
  function OnRefineSym(h: Table, p: Params, z: Block, k: nat, sym: Sym, b: seq<bool>): Result
    requires Legal(h) && InBand(p) && k <= p.se && (sym.Eob? ==> sym.run > 0)
  {
    match sym
    case Eob(run) => Tail(z, k, p.se, p.al, b, run)
    case Pass(r, v) =>
      match Advance(z, k, p.se, p.al, r, b)
      case None => None
      case Some((z', k', b')) => Resume(h, p, Store(z', k', v), k' + 1, b')
  }

  /** What a first scan does. */
  function OnFirstSym(h: Table, p: Params, z: Block, k: nat, sym: Sym, b: seq<bool>): Result
    requires Legal(h) && InBand(p) && k <= p.se && (sym.Eob? ==> sym.run > 0)
  {
    match sym
    case Eob(run) => Some((z, b, run - 1))
    case Pass(r, v) => Resume(h, p, Store(z, k + r, v), k + r + 1, b)
  }

  lemma RefineBySym(h: Table, p: Params, z: Block, k: nat, b: seq<bool>)
    requires Legal(h) && InBand(p) && p.kind.Refine? && k <= p.se
    ensures var m := ReadSym(h, p, b);
      Resume(h, p, z, k, b) == if m.None? then None else OnRefineSym(h, p, z, k, m.value.0, m.value.1)
  {
    hide Serial, Advance, Tail, Shl, Legal;
    if Serial(h, b).Some? { TakeOne(Serial(h, b).value.1); }
  }

  lemma FirstBySym(h: Table, p: Params, z: Block, k: nat, b: seq<bool>)
    requires Legal(h) && InBand(p) && !p.kind.Refine? && k <= p.se
    ensures var m := ReadSym(h, p, b);
      Resume(h, p, z, k, b) == if m.None? then None else OnFirstSym(h, p, z, k, m.value.0, m.value.1)
  {
    hide Serial, Shl, Extend, Legal, Val;
  }

  lemma ResumeEnds(h: Table, p: Params, z: Block, k: nat, b: seq<bool>)
    requires Legal(h) && InBand(p) && k > p.se
    ensures Resume(h, p, z, k, b) == Some((z, b, 0))
  {
  }

  /** The bits of a symbol and nothing else decide what it is. */
  lemma {:induction false} SerialAtPrefix(h: Table, code: nat, l: nat, rest: seq<bool>)
    requires Legal(h) && 1 <= l <= 17 && First(h, l) <= code && SerialAt(h, code, l, rest).Some?
    ensures SerialAt(h, code, l, rest[..|rest| - |SerialAt(h, code, l, rest).value.1|])
         == Some((SerialAt(h, code, l, rest).value.0, []))
    decreases 17 - l
  {
    hide SerialAt, MaxCode, SymbolAt;
    var n := |rest| - |SerialAt(h, code, l, rest).value.1|;
    SerialStep(h, code, l, rest);
    SerialStep(h, code, l, rest[..n]);
    if l < 17 && code > MaxCode(h, l) {
      SerialAtPrefix(h, 2 * code + Bit(rest[0]), l + 1, rest[1..]);
      assert rest[..n][1..] == rest[1..][..n - 1];
    }
  }

  lemma SerialLocal(h: Table, b: seq<bool>, x: seq<bool>)
    requires Legal(h) && Serial(h, b).Some?
    ensures var b' := Serial(h, b).value.1;
      b == b[..|b| - |b'|] + b' && Serial(h, b[..|b| - |b'|] + x) == Some((Serial(h, b).value.0, x))
  {
    hide SerialAt;
    SerialAtSuffix(h, Bit(b[0]), 1, b[1..]);
    SerialAtPrefix(h, Bit(b[0]), 1, b[1..]);
    var e := b[..|b| - |Serial(h, b).value.1|];
    assert e[1..] == b[1..][..|e| - 1];
    SerialExtends(h, e, x);
    assert [] + x == x;
  }

  lemma SymLocal(h: Table, p: Params, b: seq<bool>, x: seq<bool>)
    requires Legal(h) && ReadSym(h, p, b).Some?
    ensures var b' := ReadSym(h, p, b).value.1;
      |b'| <= |b| && b == b[..|b| - |b'|] + b' && ReadSym(h, p, b[..|b| - |b'|] + x) == Some((ReadSym(h, p, b).value.0, x))
  {
    hide Serial, SymOf;
    var (sym, b1) := Serial(h, b).value;
    var b' := ReadSym(h, p, b).value.1;
    var n := |b1| - |b'|;
    SerialLocal(h, b, b1[..n] + x);
    var e := b[..|b| - |b1|];
    assert b[..|b| - |b'|] == e + b1[..n];
    assert b[..|b| - |b'|] + x == e + (b1[..n] + x);
    assert n == 0 ==> b1[..n] + x == x;
    assert (b1[..n] + x)[..n] == b1[..n] && (b1[..n] + x)[n..] == x;
  }

  /** e is exactly the bits of one symbol. */
  ghost predicate SymBitsAre(h: Table, p: Params, e: seq<bool>, sym: Sym)
    requires Legal(h)
  {
    forall x: seq<bool> :: ReadSym(h, p, e + x) == Some((sym, x))
  }

  lemma SymRead(h: Table, p: Params, b: seq<bool>) returns (e: seq<bool>)
    requires Legal(h) && ReadSym(h, p, b).Some?
    ensures b == e + ReadSym(h, p, b).value.1 && SymBitsAre(h, p, e, ReadSym(h, p, b).value.0)
  {
    hide ReadSym;
    SymLocal(h, p, b, []);
    e := b[..|b| - |ReadSym(h, p, b).value.1|];
    forall x: seq<bool> ensures ReadSym(h, p, e + x) == Some((ReadSym(h, p, b).value.0, x)) {
      SymLocal(h, p, b, x);
    }
  }

  // ---------- symbol by symbol ----------

  /** Storing at k1 the value that ends the stretch from k. */
  lemma MixStore(w: Block, a: Block, y: Block, k: nat, k1: nat, v: Option<int>)
    requires k <= k1 < 64 && forall i :: k <= i < k1 ==> a[i] == w[i]
    requires if v.Some? then true else a[k1] == w[k1]
    ensures Store(Mix(w, Mix(a, y, k1 + 1), k), k1, v) == Mix(Store(w, k1, v), y, k1 + 1)
  {
    var p, q := Store(Mix(w, Mix(a, y, k1 + 1), k), k1, v), Mix(Store(w, k1, v), y, k1 + 1);
    forall i | 0 <= i < 64 ensures p[i] == q[i] {
    }
  }

  lemma MixAbove(a: Block, y: Block, i: nat, k: nat)
    requires i < k <= 64
    ensures Mix(a, y, k)[i] == a[i]
  {
  }

  lemma MixBelow(a: Block, a': Block, y: Block, k: nat, k2: nat)
    requires k <= k2 <= 64 && forall i :: 0 <= i < k ==> a'[i] == a[i]
    ensures Mix(a, Mix(a', y, k2), k) == Mix(a', y, k2)
  {
    var p, q := Mix(a, Mix(a', y, k2), k), Mix(a', y, k2);
    forall i | 0 <= i < 64 ensures p[i] == q[i] {
    }
  }

  lemma MixInside(w: Block, s: Block, a: Block, y: Block, k: nat, k1: nat)
    requires k <= k1 < 64
    requires (forall i :: 0 <= i < k ==> s[i] == w[i]) && (forall i :: k <= i < k1 ==> s[i] == a[i])
    ensures Mix(w, Mix(a, y, k1 + 1), k) == Mix(s, Mix(a, y, k1 + 1), k1)
    ensures Mix(a, Mix(a, y, k1 + 1), k) == Mix(a, y, k1 + 1)
  {
    var p, q := Mix(w, Mix(a, y, k1 + 1), k), Mix(s, Mix(a, y, k1 + 1), k1);
    forall i | 0 <= i < 64 ensures p[i] == q[i] {
    }
  }

  /** A refinement symbol and the coefficients it passes. */
  lemma LeadsRefine(h: Table, p: Params, a: Block, w: Block, k: nat, e0: seq<bool>, sym: Sym, e1: seq<bool>,
                    s: Block, w1: Block, k1: nat, e2: seq<bool>)
    requires Legal(h) && InBand(p) && p.kind.Refine? && k <= k1 <= p.se && Leads(h, p, a, w, k, e0)
    requires sym.Pass? && SymBitsAre(h, p, e1, sym)
    requires (forall i :: 0 <= i < k ==> s[i] == w[i]) && (forall i :: k <= i < k1 ==> s[i] == a[i])
    requires AdvLeads(p.se, p.al, s, w1, k, k1, sym.r, 0, e2) && w1[k1] == 0 == a[k1]
    ensures Leads(h, p, a, Store(w1, k1, sym.v), k1 + 1, e0 + e1 + e2)
  {
    hide Mix, Store, Resume, Advance, ReadSym, Legal;
    var w2, e, k2 := Store(w1, k1, sym.v), e0 + e1 + e2, k1 + 1;
    forall y: Block, x: seq<bool> ensures Resume(h, p, Mix(a, y, k2), p.ss, e + x) == Resume(h, p, Mix(w2, y, k2), k2, x) {
      var y' := Mix(a, y, k2);
      assert e0 + e1 + e2 + x == e0 + (e1 + (e2 + x));
      MixInside(w, s, a, y, k, k1);
      LeadsTo(h, p, a, w, k, e0, y', e1 + (e2 + x));
      RefineBySym(h, p, Mix(w, y', k), k, e1 + (e2 + x));
      AdvTo(p.se, p.al, s, w1, k, k1, sym.r, 0, e2, y', x);
      AdvanceOnce(Mix(w1, y', k1), k1, p.se, p.al, 0, x);
      MixStore(w1, a, y, k1, k1, sym.v);
      assert Mix(w1, y', k1)[k1] == 0 by { MixAt(w1, y', k1); MixAbove(a, y, k1, k2); }
    }
  }

  /** A first-scan symbol, on the block as it was or with the value already stored. */
  lemma LeadsFirst(h: Table, p: Params, a: Block, a': Block, w: Block, k: nat, e0: seq<bool>, sym: Sym, e1: seq<bool>, k1: nat)
    requires Legal(h) && InBand(p) && !p.kind.Refine? && k <= p.se && Leads(h, p, a, w, k, e0)
    requires sym.Pass? && SymBitsAre(h, p, e1, sym) && k1 == k + sym.r <= p.se
    requires (forall i :: k <= i < 64 ==> w[i] == a[i]) && (a' == a || a' == Store(a, k1, sym.v))
    ensures Leads(h, p, a', Store(w, k1, sym.v), k1 + 1, e0 + e1)
  {
    hide Mix, Resume, ReadSym, Legal;
    var w2, e, k2 := Store(w, k1, sym.v), e0 + e1, k1 + 1;
    forall y: Block, x: seq<bool> ensures Resume(h, p, Mix(a', y, k2), p.ss, e + x) == Resume(h, p, Mix(w2, y, k2), k2, x) {
      var y' := Mix(a', y, k2);
      assert e0 + e1 + x == e0 + (e1 + x);
      assert Mix(a, y', k) == y' by { MixBelow(a, a', y, k, k2); }
      LeadsTo(h, p, a, w, k, e0, y', e1 + x);
      FirstBySym(h, p, Mix(w, y', k), k, e1 + x);
      MixStore(w, a', y, k, k1, sym.v);
    }
  }

  // ---------- suspension ----------

  /** Whatever bits come after b, blocks u and z decode alike. */
  ghost predicate SameFuture(h: Table, p: Params, u: Block, z: Block, b: seq<bool>, run: nat)
    requires Legal(h) && InBand(p)
  {
    forall x: seq<bool> :: DecodeBlock(h, p, u, b + x, run) == DecodeBlock(h, p, z, b + x, run)
  }

  lemma BlockResumes(h: Table, p: Params, z: Block, b: seq<bool>)
    requires Legal(h) && InBand(p)
    ensures DecodeBlock(h, p, z, b, 0) == Resume(h, p, z, p.ss, b)
  {
  }

  /** Between two symbols. */
  lemma SuspendedBetween(h: Table, p: Params, u: Block, z: Block, w: Block, k: nat, e: seq<bool>, b: seq<bool>)
    requires Legal(h) && InBand(p) && k <= 64 && Leads(h, p, u, w, k, e) && Leads(h, p, z, w, k, e)
    requires w[k..] == z[k..] == u[k..]
    ensures SameFuture(h, p, u, z, e + b, 0)
  {
    hide Resume, Legal, DecodeBlock;
    assert Mix(u, w, k) == u && Mix(z, w, k) == z;
    forall x: seq<bool> ensures DecodeBlock(h, p, u, e + b + x, 0) == DecodeBlock(h, p, z, e + b + x, 0) {
      assert e + b + x == e + (b + x);
      LeadsTo(h, p, u, w, k, e, w, b + x);
      LeadsTo(h, p, z, w, k, e, w, b + x);
      BlockResumes(h, p, u, e + b + x);
      BlockResumes(h, p, z, e + b + x);
    }
  }

  /** Among the coefficients that a refinement symbol passes, or that an EOB leaves to be corrected;
      w was there before the corrections and w1 is there now. */
  lemma SuspendedInside(h: Table, p: Params, u: Block, z: Block, w: Block, w1: Block, k: nat, e0: seq<bool>, sym: Sym, e1: seq<bool>,
                        k1: nat, r1: nat, e2: seq<bool>, b: seq<bool>)
    requires Legal(h) && InBand(p) && p.kind.Refine? && k <= k1 <= p.se + 1 && k <= p.se
    requires Leads(h, p, u, w, k, e0) && Leads(h, p, z, w, k, e0) && SymBitsAre(h, p, e1, sym)
    requires AdvLeads(p.se, p.al, w, w1, k, k1, Zeroes(sym), r1, e2) && AdvLeads(p.se, p.al, w1, w1, k, k1, Zeroes(sym), r1, e2)
    requires w1[..k] == w[..k] && w1[k1..] == w[k1..] && w[k..] == z[k..] && u[k..] == w1[k..]
    ensures SameFuture(h, p, u, z, e0 + e1 + e2 + b, 0)
  {
    hide Resume, Legal, DecodeBlock, Advance, ReadSym;
    assert Mix(u, w1, k) == u && Mix(z, w, k) == z && Mix(w, w1, k) == w1 && Mix(w, w, k) == w;
    assert Mix(w, w1, k1) == w && Mix(w1, w1, k1) == w1;
    forall x: seq<bool>
      ensures DecodeBlock(h, p, u, e0 + e1 + e2 + b + x, 0) == DecodeBlock(h, p, z, e0 + e1 + e2 + b + x, 0)
    {
      var x1 := e1 + (e2 + (b + x));
      assert e0 + e1 + e2 + b + x == e0 + x1;
      LeadsTo(h, p, u, w, k, e0, w1, x1);
      LeadsTo(h, p, z, w, k, e0, w, x1);
      BlockResumes(h, p, u, e0 + x1);
      BlockResumes(h, p, z, e0 + x1);
      AdvTo(p.se, p.al, w, w1, k, k1, Zeroes(sym), r1, e2, w1, b + x);
      AdvTo(p.se, p.al, w1, w1, k, k1, Zeroes(sym), r1, e2, w1, b + x);
      RefineBySym(h, p, w, k, x1);
      RefineBySym(h, p, w1, k, x1);
    }
  }

  /** How many zeros are passed: all that are left after an EOB. */
  function Zeroes(sym: Sym): nat { if sym.Pass? then sym.r else 64 }

  /** In a block that an EOB run covers. */
  lemma SuspendedInRun(h: Table, p: Params, w: Block, w1: Block, run: nat, k1: nat, r1: nat, e: seq<bool>, b: seq<bool>)
    requires Legal(h) && InBand(p) && p.kind.Refine? && p.ss <= k1 <= p.se + 1 && run > 0
    requires AdvLeads(p.se, p.al, w, w1, p.ss, k1, 64, r1, e) && AdvLeads(p.se, p.al, w1, w1, p.ss, k1, 64, r1, e)
    requires w1[k1..] == w[k1..]
    ensures SameFuture(h, p, w1, w, e + b, run)
  {
    hide Legal, Advance;
    assert Mix(w, w1, k1) == w && Mix(w1, w1, k1) == w1;
    forall x: seq<bool> ensures DecodeBlock(h, p, w1, e + b + x, run) == DecodeBlock(h, p, w, e + b + x, run) {
      assert e + b + x == e + (b + x);
      AdvTo(p.se, p.al, w, w1, p.ss, k1, 64, r1, e, w1, b + x);
      AdvTo(p.se, p.al, w1, w1, p.ss, k1, 64, r1, e, w1, b + x);
    }
  }
}
