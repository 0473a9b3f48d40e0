// decode_mcu_AC_first and decode_mcu_AC_refine (jdphuff.c) as they run: coefficients are assigned in
// place while bits arrive, the source may refuse at any point, and state is saved only when an MCU is
// complete.
module AcDecoder {
  import opened Wrappers
  import opened Bits
  import opened HuffmanTable
  import opened DerivedTables
  import opened BitReader
  import opened Coefficients
  import opened AcBlocks
  import opened AcScan
  import opened AcReplay
  import opened ZigzagOrder

  /** r' is r after the bits up to `rest` have been taken. */
  ghost predicate Took(r: Reader, rest: seq<bool>, r': Reader)
    requires r.Valid()
  {
    && r'.Valid() && r'.Rest() == rest && r'.End() == r.End() && r'.insufficient == r.insufficient
  }

  /** What reading always keeps. */
  ghost predicate Goes(r: Reader, r': Reader) {
    r.Valid() && r'.Valid() && r'.input == r.input && (r.unreadMarker != 0 ==> r'.unreadMarker != 0) && r'.Future() == r.Future()
  }

  /** CHECK_BIT_BUFFER and GET_BITS. */
  method GetBits(r: Reader, n: nat) returns (ok: bool, x: nat, r': Reader)
    requires r.Valid() && n <= 16
    ensures r.End().Some? || r.unreadMarker != 0 ==> ok
    ensures ok ==> Goes(r, r')
    ensures ok ==>
      var t := TakeBits(r.Rest(), n);
      if t.None? then r'.unreadMarker != 0 else x == t.value.0 && Took(r, t.value.1, r')
  {
    hide Destuff, MarkerIn, StubIn, Bin, Val, Low, Shr;
    x := 0;
    ok, r' := CheckBitBuffer(r, n);
    if !ok { return; }
    GetBitsAre(r', n);
    TakeBin(r'.Peek(n), n, r'.Drop(n).Rest());
    LowSmall(r'.Peek(n), n);
    x := r'.Peek(n);
    r' := r'.Drop(n);
  }

  /** HUFF_DECODE and the bits that go with the symbol. */
  method ReadSymbol(r: Reader, d: DDerived, p: Params) returns (ok: bool, sym: Sym, r': Reader)
    requires r.Valid() && Decodes(d.pub, d)
    ensures r.End().Some? || r.unreadMarker != 0 ==> ok
    ensures ok ==> Goes(r, r') && (if sym.Eob? then sym.run > 0 else sym.r <= 15)
    ensures ok ==>
      var m := ReadSym(d.pub, p, r.Rest());
      if m.None? then r'.unreadMarker != 0 else sym == m.value.0 && Took(r, m.value.1, r')
  {
    hide Destuff, MarkerIn, StubIn, Bin, Serial, Legal, Lookahead, TakeBits;
    var s, x;
    sym := Pass(15, None);
    ok, s, r' := HuffDecode(r, d);
    if !ok { return; }
    var run := s / 16;
    s := s % 16;
    if s == 0 && run == 15 { return; }
    ok, x, r' := GetBits(r', ExtraBits(p, run, s));
    if !ok { return; }
    sym := SymOf(p, run, s, x);
  }

  // ---------- corrections ----------

  /** Append a correction bit to the nonzero coefficient at pos, unless an earlier try already did. */
  method Correct(block: array<int>, pos: nat, al: nat, r: Reader) returns (ok: bool, r': Reader)
    requires r.Valid() && pos < block.Length
    modifies block
    ensures r.End().Some? || r.unreadMarker != 0 ==> ok
    ensures ok ==> Goes(r, r')
    ensures ok && r.Rest() == [] ==> r'.unreadMarker != 0
    ensures ok && r.Rest() != [] ==> Took(r, r.Rest()[1..], r')
    ensures ok && r.Rest() != [] ==>
      block[..] == old(block[..])[pos := if r.Rest()[0] then Bump(old(block[pos]), al) else old(block[pos])]
    ensures !ok ==> block[..] == old(block[..])
    ensures forall q :: 0 <= q < block.Length && q != pos ==> block[q] == old(block[q])
  {
    hide Destuff, MarkerIn, StubIn, Bin, Shr, Shl, TakeBits, Reader.Rest, Reader.End, Reader.Future;
    TakeOne(r.Rest());
    TakeNone(r.Rest());
    var x;
    ok, x, r' := GetBits(r, 1);
    if !ok { return; }
    if x == 1 {
      if !BitSet(block[pos], al) {
        if block[pos] >= 0 {
          block[pos] := block[pos] + Shl(1, al);
        } else {
          block[pos] := block[pos] + Shl(-1, al);
        }
      }
    }
  }

  lemma TakeNone(b: seq<bool>)
    ensures b == [] ==> TakeBits(b, 1).None?
  {
  }

  /** Inside the loop that corrects coefficients while passing zeros: z was the block at its start. */
  ghost predicate Inside(p: Params, z: Block, z1: Block, k0: nat, k: nat, r0: nat, r: nat, e: seq<bool>, rd0: Reader, rd: Reader)
    requires InBand(p)
  {
    && k0 <= k <= p.se + 1
    && AdvLeads(p.se, p.al, z, z1, k0, k, r0, r, e) && AdvLeads(p.se, p.al, z1, z1, k0, k, r0, r, e)
    && (forall i :: (0 <= i < k0 || k <= i < 64) ==> z1[i] == z[i])
    && rd0.Valid() && rd.Valid() && rd0.Rest() == e + rd.Rest() && Took(rd0, rd.Rest(), rd)
  }

  lemma InsideStarts(p: Params, z: Block, k: nat, r: nat, rd: Reader)
    requires InBand(p) && k <= p.se + 1 && rd.Valid()
    ensures Inside(p, z, z, k, k, r, r, [], rd, rd)
  {
    hide AdvLeads, Destuff, MarkerIn, StubIn, Bin;
    AdvNowhere(p.se, p.al, z, k, r);
    assert [] + rd.Rest() == rd.Rest();
  }

  lemma InsideCorrected(p: Params, z: Block, z1: Block, k0: nat, k: nat, r0: nat, r: nat, e: seq<bool>, rd0: Reader, rd: Reader,
                        rd': Reader)
    requires InBand(p) && Inside(p, z, z1, k0, k, r0, r, e, rd0, rd) && k <= p.se && z1[k] != 0
    requires rd.Rest() != [] && Took(rd, rd.Rest()[1..], rd')
    ensures var bit := rd.Rest()[0];
      Inside(p, z, z1[k := if bit then Bump(z1[k], p.al) else z1[k]], k0, k + 1, r0, r, e + [bit], rd0, rd')
  {
    hide AdvLeads, Destuff, MarkerIn, StubIn, Bin, Bump;
    var bit := rd.Rest()[0];
    var w := z1[k := if bit then Bump(z1[k], p.al) else z1[k]];
    BumpTwice(z1[k], p.al);
    AdvCorrection(p.se, p.al, z, z, z1, k0, k, r0, r, e, bit);
    AdvCorrection(p.se, p.al, z1, w, z1, k0, k, r0, r, e, bit);
    assert z1[k := if bit then Bump(w[k], p.al) else w[k]] == w;
    assert e + rd.Rest() == e + [bit] + rd'.Rest();
  }

  lemma InsideZero(p: Params, z: Block, z1: Block, k0: nat, k: nat, r0: nat, r: nat, e: seq<bool>, rd0: Reader, rd: Reader)
    requires InBand(p) && Inside(p, z, z1, k0, k, r0, r, e, rd0, rd) && k <= p.se && z1[k] == 0 && r > 0
    ensures Inside(p, z, z1, k0, k + 1, r0, r - 1, e, rd0, rd)
  {
    hide AdvLeads, Destuff, MarkerIn, StubIn, Bin;
    AdvZero(p.se, p.al, z, z, z1, k0, k, r0, r, e);
    AdvZero(p.se, p.al, z1, z1, z1, k0, k, r0, r, e);
  }

  /** What the loop will find can be read off where it stands. */
  lemma InsideGoal(p: Params, z: Block, z1: Block, k0: nat, k: nat, r0: nat, r: nat, e: seq<bool>, rd0: Reader, rd: Reader)
    requires InBand(p) && Inside(p, z, z1, k0, k, r0, r, e, rd0, rd)
    ensures Advance(z, k0, p.se, p.al, r0, rd0.Rest()) == Advance(z1, k, p.se, p.al, r, rd.Rest())
    ensures k == p.se + 1 ==> Advance(z1, k, p.se, p.al, r, rd.Rest()) == Some((z1, k, rd.Rest()))
    ensures k <= p.se && z1[k] == 0 && r == 0 ==> Advance(z1, k, p.se, p.al, r, rd.Rest()) == Some((z1, k, rd.Rest()))
    ensures k <= p.se && z1[k] != 0 && rd.Rest() == [] ==> Advance(z1, k, p.se, p.al, r, rd.Rest()) == None
  {
    hide AdvLeads, Destuff, MarkerIn, StubIn, Bin, Advance;
    AdvTo(p.se, p.al, z, z1, k0, k, r0, r, e, z, rd.Rest());
    assert Mix(z, z, k) == z && Mix(z1, z, k) == z1;
    if k == p.se + 1 { AdvanceEnds(z1, p.se, p.al, r, rd.Rest()); } else { AdvanceOnce(z1, k, p.se, p.al, r, rd.Rest()); }
  }

  /** The do-while loop of decode_mcu_AC_refine. */
  method PassZeros(block: array<int>, order: seq<nat>, p: Params, k0: nat, r0: nat, rd0: Reader)
    returns (ok: bool, k: nat, rd: Reader, ghost r: nat, ghost e: seq<bool>)
    requires InBand(p) && NaturalOrder(order) && block.Length == 64 && rd0.Valid() && k0 <= p.se
    modifies block
    ensures rd0.End().Some? || rd0.unreadMarker != 0 ==> ok
    ensures k0 <= k <= p.se + 1 && Goes(rd0, rd)
    ensures var z, z1 := Zigzag(order, old(block[..])), Zigzag(order, block[..]);
      var goal := Advance(z, k0, p.se, p.al, r0, rd0.Rest());
      && (ok && goal.Some? ==> z1 == goal.value.0 && k == goal.value.1)
      && (ok && goal.None? ==> rd.unreadMarker != 0)
      && (!ok || goal.Some? ==> Inside(p, z, z1, k0, k, r0, r, e, rd0, rd))
      && (ok && goal.Some? ==> k == p.se + 1 || (z1[k] == 0 && r == 0))
  {
    hide AdvLeads, Destuff, MarkerIn, StubIn, Bin, Advance, Bump, Reader.Rest, Reader.End, Reader.Future, Zigzag;
    ghost var z := Zigzag(order, block[..]);
    ghost var goal := Advance(z, k0, p.se, p.al, r0, rd0.Rest());
    ok, k, rd, r, e := true, k0, rd0, r0, [];
    var zeros: int := r0;
    InsideStarts(p, z, k, r, rd);
    while k <= p.se
      invariant k0 <= k <= p.se + 1 && Goes(rd0, rd) && ok && zeros == r
      invariant goal.Some? || rd.unreadMarker == 0 ==> Inside(p, z, Zigzag(order, block[..]), k0, k, r0, r, e, rd0, rd)
      decreases p.se - k
    {
      ghost var was, z1 := block[..], Zigzag(order, block[..]);
      ZigzagAt(order, was, k);
      if goal.Some? || rd.unreadMarker == 0 { InsideGoal(p, z, z1, k0, k, r0, r, e, rd0, rd); }
      if block[order[k]] != 0 {
        var rd1;
        ok, rd1 := Correct(block, order[k], p.al, rd);
        if !ok { return; }
        if goal.Some? || rd1.unreadMarker == 0 {
          InsideCorrected(p, z, z1, k0, k, r0, r, e, rd0, rd, rd1);
          ZigzagSet(order, was, k, block[order[k]]);
          e := e + [rd.Rest()[0]];
        }
        rd := rd1;
      } else {
        zeros := zeros - 1;
        if zeros < 0 { break; }
        if goal.Some? || rd.unreadMarker == 0 { InsideZero(p, z, z1, k0, k, r0, r, e, rd0, rd); }
        r := r - 1;
      }
      k := k + 1;
    }
    if goal.Some? || rd.unreadMarker == 0 { InsideGoal(p, z, Zigzag(order, block[..]), k0, k, r0, r, e, rd0, rd); }
  }

  /** The loop after the end of band. */
  method CorrectRest(block: array<int>, order: seq<nat>, p: Params, k0: nat, rd0: Reader)
    returns (ok: bool, rd: Reader, ghost k: nat, ghost r: nat, ghost e: seq<bool>)
    requires InBand(p) && NaturalOrder(order) && block.Length == 64 && rd0.Valid() && p.ss <= k0 <= p.se + 1
    modifies block
    ensures rd0.End().Some? || rd0.unreadMarker != 0 ==> ok
    ensures k0 <= k <= p.se + 1 && Goes(rd0, rd)
    ensures var z, z1 := Zigzag(order, old(block[..])), Zigzag(order, block[..]);
      var goal := Advance(z, k0, p.se, p.al, 64, rd0.Rest());
      && (ok && goal.Some? ==> z1 == goal.value.0 && Took(rd0, goal.value.2, rd))
      && (ok && goal.None? ==> rd.unreadMarker != 0)
      && (!ok ==> Inside(p, z, z1, k0, k, 64, r, e, rd0, rd))
  {
    hide AdvLeads, Destuff, MarkerIn, StubIn, Bin, Advance, Bump, Reader.Rest, Reader.End, Reader.Future, Zigzag;
    ghost var z := Zigzag(order, block[..]);
    ghost var goal := Advance(z, k0, p.se, p.al, 64, rd0.Rest());
    var i := k0;
    ok, k, rd, r, e := true, k0, rd0, 64, [];
    InsideStarts(p, z, k, r, rd);
    while i <= p.se
      invariant k0 <= i == k <= p.se + 1 && Goes(rd0, rd) && ok && r + (k - k0) >= 64
      invariant goal.Some? || rd.unreadMarker == 0 ==> Inside(p, z, Zigzag(order, block[..]), k0, k, 64, r, e, rd0, rd)
    {
      ghost var was, z1 := block[..], Zigzag(order, block[..]);
      ZigzagAt(order, was, k);
      if goal.Some? || rd.unreadMarker == 0 { InsideGoal(p, z, z1, k0, k, 64, r, e, rd0, rd); }
      if block[order[i]] != 0 {
        var rd1;
        ok, rd1 := Correct(block, order[i], p.al, rd);
        if !ok { return; }
        if goal.Some? || rd1.unreadMarker == 0 {
          InsideCorrected(p, z, z1, k0, k, 64, r, e, rd0, rd, rd1);
          ZigzagSet(order, was, k, block[order[k]]);
          e := e + [rd.Rest()[0]];
        }
        rd := rd1;
      } else {
        if goal.Some? || rd.unreadMarker == 0 { InsideZero(p, z, z1, k0, k, 64, r, e, rd0, rd); }
        r := r - 1;
      }
      i, k := i + 1, k + 1;
    }
    if goal.Some? || rd.unreadMarker == 0 { InsideGoal(p, z, Zigzag(order, block[..]), k0, k, 64, r, e, rd0, rd); }
  }

  // ---------- one block of a refinement scan ----------

  /** Putting zeros back: u is the block without its newly nonzero coefficients. */
  ghost predicate Without(order: seq<nat>, block: seq<int>, newnz: seq<nat>, u: Block)
    requires NaturalOrder(order) && |block| == 64
  {
    && (forall i :: 0 <= i < |newnz| ==> newnz[i] < 64)
    && (forall q {:trigger order[q]} :: 0 <= q < 64 ==> u[q] == if order[q] in newnz then 0 else block[order[q]])
  }

  /** undoit */
  method UndoIt(block: array<int>, newnzPos: array<nat>, numNewnz: nat, ghost order: seq<nat>, ghost u: Block)
    requires NaturalOrder(order) && block.Length == 64 && numNewnz <= newnzPos.Length
    requires Without(order, block[..], newnzPos[..numNewnz], u)
    modifies block
    ensures Zigzag(order, block[..]) == u
  {
    var num := numNewnz;
    while num > 0
      invariant 0 <= num <= numNewnz && Without(order, block[..], newnzPos[..num], u)
    {
      num := num - 1;
      assert newnzPos[..num + 1] == newnzPos[..num] + [newnzPos[num]];
      block[newnzPos[num]] := 0;
    }
  }

  /** Between two symbols of a block that was z: with w in memory now, u if suspended here. */
  ghost predicate Between(h: Table, p: Params, z: Block, u: Block, w: Block, k: nat, e: seq<bool>, rd0: Reader, rd: Reader)
    requires Legal(h) && InBand(p)
  {
    && p.ss <= k && (k <= p.se ==> Leads(h, p, z, w, k, e) && Leads(h, p, u, w, k, e))
    && (forall i :: k <= i < 64 ==> w[i] == z[i] == u[i])
    && rd0.Valid() && rd.Valid() && rd0.Rest() == e + rd.Rest() && Took(rd0, rd.Rest(), rd)
    && DecodeBlock(h, p, z, rd0.Rest(), 0) == Resume(h, p, w, k, rd.Rest())
  }

  lemma BetweenStarts(h: Table, p: Params, z: Block, rd: Reader)
    requires Legal(h) && InBand(p) && rd.Valid()
    ensures Between(h, p, z, z, z, p.ss, [], rd, rd)
  {
    hide Legal, Leads, Resume, Destuff, MarkerIn, StubIn, Bin, DecodeBlock;
    LeadsNowhere(h, p, z);
    BlockResumes(h, p, z, rd.Rest());
    assert [] + rd.Rest() == rd.Rest();
  }

  /** Only positions before k have been filled. */
  ghost predicate Unfilled(order: seq<nat>, newnz: seq<nat>, k: nat)
    requires NaturalOrder(order)
  {
    forall q {:trigger order[q]} :: k <= q < 64 ==> order[q] !in newnz
  }

  lemma WithoutNext(order: seq<nat>, b0: seq<int>, b1: seq<int>, newnz: seq<nat>, u: Block, k: nat, k1: nat, v: int)
    requires NaturalOrder(order) && |b0| == |b1| == 64 && k <= k1 < 64
    requires Without(order, b0, newnz, u) && Unfilled(order, newnz, k)
    requires forall i :: 0 <= i < k ==> Zigzag(order, b1)[i] == Zigzag(order, b0)[i]
    ensures var u' := Mix(u, Zigzag(order, b1), k);
      && Without(order, b1, newnz, u') && Unfilled(order, newnz, k1 + 1)
      && (b1[order[k1]] == 0 ==> Without(order, b1[order[k1] := v], newnz + [order[k1]], u'))
      && Unfilled(order, newnz + [order[k1]], k1 + 1)
  {
    var u' := Mix(u, Zigzag(order, b1), k);
    forall q | 0 <= q < 64 ensures u'[q] == if order[q] in newnz then 0 else b1[order[q]] {
      if q < k {
        assert Zigzag(order, b1)[q] == Zigzag(order, b0)[q];
      }
    }
    forall q | k1 < q < 64 ensures order[q] !in newnz + [order[k1]] {
      assert order[k1] != order[q];
    }
  }

  /** From symbol to symbol. */
  lemma BetweenNext(h: Table, p: Params, z: Block, u: Block, w: Block, k: nat, e0: seq<bool>, rd0: Reader, rd: Reader,
                    sym: Sym, rd1: Reader, w1: Block, k1: nat, r1: nat, e2: seq<bool>, rd2: Reader)
    returns (e: seq<bool>)
    requires Legal(h) && InBand(p) && p.kind.Refine? && k <= p.se && Between(h, p, z, u, w, k, e0, rd0, rd)
    requires sym.Pass? && ReadSym(h, p, rd.Rest()).Some? && sym == ReadSym(h, p, rd.Rest()).value.0
    requires rd1.Valid() && Took(rd, ReadSym(h, p, rd.Rest()).value.1, rd1)
    requires Inside(p, w, w1, k, k1, sym.r, r1, e2, rd1, rd2) && (k1 == p.se + 1 || (w1[k1] == 0 && r1 == 0))
    ensures Between(h, p, z, Mix(u, w1, k), Store(w1, k1, sym.v), k1 + 1, e, rd0, rd2)
  {
    hide Legal, Leads, AdvLeads, Resume, Destuff, MarkerIn, StubIn, Bin, DecodeBlock, Advance, ReadSym, SymBitsAre;
    var u' := Mix(u, w1, k);
    var e1 := SymRead(h, p, rd.Rest());
    e := e0 + e1 + e2;
    assert rd0.Rest() == e + rd2.Rest();
    InsideGoal(p, w, w1, k, k1, sym.r, r1, e2, rd1, rd2);
    RefineBySym(h, p, w, k, rd.Rest());
    if k1 <= p.se {
      LeadsRefine(h, p, z, w, k, e0, sym, e1, w, w1, k1, e2);
      LeadsSame(h, p, u, u', w, k, e0);
      LeadsRefine(h, p, u', w, k, e0, sym, e1, w1, w1, k1, e2);
    }
  }

  lemma LeadsSame(h: Table, p: Params, a: Block, a': Block, w: Block, k: nat, e: seq<bool>)
    requires Legal(h) && InBand(p) && k <= 64 && Leads(h, p, a, w, k, e) && forall i :: 0 <= i < k ==> a'[i] == a[i]
    ensures Leads(h, p, a', w, k, e)
  {
    hide Legal, Resume;
    forall y: Block, x: seq<bool> ensures Resume(h, p, Mix(a', y, k), p.ss, e + x) == Resume(h, p, Mix(w, y, k), k, x) {
      assert Mix(a', y, k) == Mix(a, y, k);
      LeadsTo(h, p, a, w, k, e, y, x);
    }
  }

  /** After the EOB symbol e1 that was read at k. */
  ghost predicate AtEob(h: Table, p: Params, z: Block, u: Block, w: Block, k: nat, e0: seq<bool>, e1: seq<bool>, run: nat, rd0: Reader, rd: Reader)
    requires Legal(h) && InBand(p)
  {
    && p.ss <= k <= p.se && run > 0 && Leads(h, p, z, w, k, e0) && Leads(h, p, u, w, k, e0) && SymBitsAre(h, p, e1, Eob(run))
    && (forall i :: k <= i < 64 ==> w[i] == z[i] == u[i])
    && rd0.Valid() && rd.Valid() && rd0.Rest() == e0 + e1 + rd.Rest() && Took(rd0, rd.Rest(), rd)
    && DecodeBlock(h, p, z, rd0.Rest(), 0) == Tail(w, k, p.se, p.al, rd.Rest(), run)
  }

  lemma BetweenEob(h: Table, p: Params, z: Block, u: Block, w: Block, k: nat, e0: seq<bool>, rd0: Reader, rd: Reader,
                   sym: Sym, rd1: Reader) returns (e1: seq<bool>)
    requires Legal(h) && InBand(p) && p.kind.Refine? && k <= p.se && Between(h, p, z, u, w, k, e0, rd0, rd)
    requires sym.Eob? && ReadSym(h, p, rd.Rest()).Some? && sym == ReadSym(h, p, rd.Rest()).value.0
    requires rd1.Valid() && Took(rd, ReadSym(h, p, rd.Rest()).value.1, rd1)
    ensures AtEob(h, p, z, u, w, k, e0, e1, sym.run, rd0, rd1)
  {
    hide Legal, Leads, AdvLeads, Resume, Destuff, MarkerIn, StubIn, Bin, DecodeBlock, Advance, Tail, ReadSym, SymBitsAre;
    e1 := SymRead(h, p, rd.Rest());
    RefineBySym(h, p, w, k, rd.Rest());
    assert rd0.Rest() == e0 + e1 + rd1.Rest();
  }

  lemma StoppedBetween(h: Table, p: Params, z: Block, u: Block, w: Block, k: nat, e: seq<bool>, rd0: Reader, rd: Reader)
    requires Legal(h) && InBand(p) && k <= p.se && Between(h, p, z, u, w, k, e, rd0, rd)
    ensures SameFuture(h, p, u, z, rd0.Rest(), 0) && rd0.End() == rd.End()
  {
    hide Legal, Leads, Resume, Destuff, MarkerIn, StubIn, Bin, DecodeBlock, SameFuture;
    SuspendedBetween(h, p, u, z, w, k, e, rd.Rest());
  }

  lemma StoppedInside(h: Table, p: Params, z: Block, u: Block, w: Block, k: nat, e0: seq<bool>, rd0: Reader, rd: Reader,
                      sym: Sym, rd1: Reader, w1: Block, k1: nat, r1: nat, e2: seq<bool>, rd2: Reader)
    requires Legal(h) && InBand(p) && p.kind.Refine? && k <= p.se && Between(h, p, z, u, w, k, e0, rd0, rd)
    requires ReadSym(h, p, rd.Rest()).Some? && sym == ReadSym(h, p, rd.Rest()).value.0
    requires rd1.Valid() && Took(rd, ReadSym(h, p, rd.Rest()).value.1, rd1)
    requires Inside(p, w, w1, k, k1, Zeroes(sym), r1, e2, rd1, rd2)
    ensures SameFuture(h, p, Mix(u, w1, k), z, rd0.Rest(), 0) && rd0.End() == rd2.End()
    ensures forall i :: 0 <= i < k ==> w1[i] == w[i]
  {
    hide Legal, Leads, AdvLeads, Resume, Destuff, MarkerIn, StubIn, Bin, DecodeBlock, Advance, ReadSym, SymBitsAre, SameFuture;
    var e1 := SymRead(h, p, rd.Rest());
    var u' := Mix(u, w1, k);
    LeadsSame(h, p, u, u', w, k, e0);
    SuspendedInside(h, p, u', z, w, w1, k, e0, sym, e1, k1, r1, e2, rd2.Rest());
    assert rd0.Rest() == e0 + e1 + e2 + rd2.Rest();
  }

  lemma StoppedAfterEob(h: Table, p: Params, z: Block, u: Block, w: Block, k: nat, e0: seq<bool>, e1: seq<bool>, run: nat,
                        rd0: Reader, rd: Reader, w1: Block, k1: nat, r1: nat, e2: seq<bool>, rd2: Reader)
    requires Legal(h) && InBand(p) && p.kind.Refine? && AtEob(h, p, z, u, w, k, e0, e1, run, rd0, rd)
    requires Inside(p, w, w1, k, k1, 64, r1, e2, rd, rd2)
    ensures SameFuture(h, p, Mix(u, w1, k), z, rd0.Rest(), 0) && rd0.End() == rd2.End()
    ensures forall i :: 0 <= i < k ==> w1[i] == w[i]
  {
    hide Legal, Leads, AdvLeads, Resume, Destuff, MarkerIn, StubIn, Bin, DecodeBlock, Advance, ReadSym, SymBitsAre, SameFuture;
    var u' := Mix(u, w1, k);
    LeadsSame(h, p, u, u', w, k, e0);
    SuspendedInside(h, p, u', z, w, w1, k, e0, Eob(run), e1, k1, r1, e2, rd2.Rest());
    assert rd0.Rest() == e0 + e1 + e2 + rd2.Rest();
  }

  lemma StoppedInRun(h: Table, p: Params, w: Block, w1: Block, run: nat, k1: nat, r1: nat, e: seq<bool>, rd0: Reader, rd: Reader)
    requires Legal(h) && InBand(p) && p.kind.Refine? && run > 0 && Inside(p, w, w1, p.ss, k1, 64, r1, e, rd0, rd)
    ensures SameFuture(h, p, w1, w, rd0.Rest(), run)
  {
    hide Legal, AdvLeads, Destuff, MarkerIn, StubIn, Bin, SameFuture;
    SuspendedInRun(h, p, w, w1, run, k1, r1, e, rd.Rest());
  }

  /** The rest of a block after an EOB or inside a run is corrections to the end of the band. */
  lemma TailGoal(h: Table, p: Params, z: Block, u: Block, w: Block, k: nat, e0: seq<bool>, e1: seq<bool>, run: nat, rd0: Reader, rd: Reader)
    requires Legal(h) && InBand(p) && AtEob(h, p, z, u, w, k, e0, e1, run, rd0, rd)
    ensures var a := Advance(w, k, p.se, p.al, 64, rd.Rest());
      && DecodeBlock(h, p, z, rd0.Rest(), 0) == (if a.None? then None else Some((a.value.0, a.value.2, run - 1)))
      && Took(rd0, rd.Rest(), rd)
  {
    hide Legal, Leads, SymBitsAre, Destuff, MarkerIn, StubIn, Bin, DecodeBlock, Advance;
  }

  lemma RunGoal(h: Table, p: Params, z: Block, run: nat, b: seq<bool>)
    requires Legal(h) && InBand(p) && p.kind.Refine? && run > 0
    ensures var a := Advance(z, p.ss, p.se, p.al, 64, b);
      DecodeBlock(h, p, z, b, run) == if a.None? then None else Some((a.value.0, a.value.2, run - 1))
  {
    hide Legal, Advance;
  }

  /** What suspension promises. */
  ghost predicate Stopped(h: Table, p: Params, order: seq<nat>, was: seq<int>, now: seq<int>, rd0: Reader, run: nat)
    requires Legal(h) && InBand(p) && NaturalOrder(order) && |was| == |now| == 64 && rd0.Valid()
  {
    rd0.End() == None && rd0.unreadMarker == 0 && SameFuture(h, p, Zigzag(order, now), Zigzag(order, was), rd0.Rest(), run)
  }

  /** The loop over the symbols of a block. */
  method RefineSymbols(block: array<int>, order: seq<nat>, p: Params, d: DDerived, newnzPos: array<nat>, rd0: Reader)
    returns (ok: bool, k: nat, run: nat, rd: Reader, num: nat, ghost u: Block, ghost e0: seq<bool>, ghost e1: seq<bool>)
    requires InBand(p) && p.kind.Refine? && NaturalOrder(order) && block.Length == newnzPos.Length == 64
    requires rd0.Valid() && Decodes(d.pub, d)
    modifies block, newnzPos
    ensures ok ==> Goes(rd0, rd) && p.ss <= k && num <= 64 && (run > 0 ==> k <= p.se)
    ensures var h, z, w := d.pub, Zigzag(order, old(block[..])), Zigzag(order, block[..]);
      var goal := DecodeBlock(h, p, z, rd0.Rest(), 0);
      && (!ok ==> Stopped(h, p, order, old(block[..]), block[..], rd0, 0))
      && (ok && (goal.Some? || rd.unreadMarker == 0) ==>
           if run == 0 then goal.Some? && goal == Some((w, rd.Rest(), 0)) && Took(rd0, rd.Rest(), rd)
           else AtEob(h, p, z, u, w, k, e0, e1, run, rd0, rd)
                && Without(order, block[..], newnzPos[..num], u) && Unfilled(order, newnzPos[..num], k))
  {
    hide Legal, Lookahead, Leads, AdvLeads, Resume, Destuff, MarkerIn, StubIn, Bin, DecodeBlock, Advance, ReadSym, SymBitsAre,
      Reader.Rest, Reader.End, Reader.Future, Zigzag, Between, SameFuture, AtEob, Without, Unfilled, Mix, Shr, Shl, Pow2, Bump;
    ghost var h, z := d.pub, Zigzag(order, block[..]);
    ghost var goal := DecodeBlock(h, p, z, rd0.Rest(), 0);
    ok, k, run, rd, num, u, e0, e1 := true, p.ss, 0, rd0, 0, z, [], [];
    BetweenStarts(h, p, z, rd);
    assert newnzPos[..0] == [];
    WithoutNone(order, block[..], k);
    while k <= p.se
      invariant ok && p.ss <= k <= p.se + 2 && run == 0 && Goes(rd0, rd) && num <= k - p.ss
      invariant goal.Some? || rd.unreadMarker == 0 ==> Between(h, p, z, u, Zigzag(order, block[..]), k, e0, rd0, rd)
      invariant k <= p.se && (goal.Some? || rd.unreadMarker == 0) ==>
        Without(order, block[..], newnzPos[..num], u) && Unfilled(order, newnzPos[..num], k)
      decreases p.se + 2 - k
    {
      ghost var w, b0 := Zigzag(order, block[..]), block[..];
      var sym, rd1, k1, rd2;
      ghost var r1, e2;
      ok, sym, rd1 := ReadSymbol(rd, d, p);
      if !ok {
        StoppedBetween(h, p, z, u, w, k, e0, rd0, rd);
        UndoIt(block, newnzPos, num, order, u);
        return;
      }
      if goal.Some? || rd1.unreadMarker == 0 { BetweenGoal(h, p, z, u, w, k, e0, rd0, rd); }
      if sym.Eob? {
        if goal.Some? || rd1.unreadMarker == 0 { e1 := BetweenEob(h, p, z, u, w, k, e0, rd0, rd, sym, rd1); }
        run, rd := sym.run, rd1;
        break;
      }
      ok, k1, rd2, r1, e2 := PassZeros(block, order, p, k, sym.r, rd1);
      ghost var w1, b1 := Zigzag(order, block[..]), block[..];
      ghost var sound := goal.Some? || rd2.unreadMarker == 0;
      if sound { PassGoal(h, p, z, u, w, k, e0, rd0, rd, rd1, sym); }
      if !ok || (sound && k1 <= p.se) { WithoutNext(order, b0, b1, newnzPos[..num], u, k, if ok then k1 else k, OrZero(sym.v)); }
      if !ok {
        StoppedInside(h, p, z, u, w, k, e0, rd0, rd, sym, rd1, w1, k1, r1, e2, rd2);
        UndoIt(block, newnzPos, num, order, Mix(u, w1, k));
        return;
      }
      if k1 <= p.se { ZigzagAt(order, b1, k1); }
      if sym.v.Some? {
        block[order[k1]] := sym.v.value;
        newnzPos[num] := order[k1];
        num := num + 1;
        ZigzagSet(order, b1, k1, sym.v.value);
        assert block[..] == b1[order[k1] := sym.v.value];
        assert newnzPos[..num] == newnzPos[..num - 1] + [order[k1]];
      }
      if sound {
        e0 := BetweenNext(h, p, z, u, w, k, e0, rd0, rd, sym, rd1, w1, k1, r1, e2, rd2);
        u := Mix(u, w1, k);
      }
      k, rd := k1 + 1, rd2;
    }
    if run == 0 && (goal.Some? || rd.unreadMarker == 0) {
      OverBetween(h, p, z, u, Zigzag(order, block[..]), k, e0, rd0, rd);
    }
  }

  function OrZero(v: Option<int>): int { if v.Some? then v.value else 0 }

  lemma WithoutNone(order: seq<nat>, block: seq<int>, k: nat)
    requires NaturalOrder(order) && |block| == 64
    ensures Without(order, block, [], Zigzag(order, block)) && Unfilled(order, [], k)
  {
  }

  /** If the bits run out the block has no meaning yet. */
  lemma BetweenGoal(h: Table, p: Params, z: Block, u: Block, w: Block, k: nat, e: seq<bool>, rd0: Reader, rd: Reader)
    requires Legal(h) && InBand(p) && p.kind.Refine? && k <= p.se && Between(h, p, z, u, w, k, e, rd0, rd)
    ensures ReadSym(h, p, rd.Rest()).None? ==> DecodeBlock(h, p, z, rd0.Rest(), 0).None?
  {
    hide Legal, Leads, Resume, Destuff, MarkerIn, StubIn, Bin, DecodeBlock, ReadSym;
    RefineBySym(h, p, w, k, rd.Rest());
  }

  lemma PassGoal(h: Table, p: Params, z: Block, u: Block, w: Block, k: nat, e: seq<bool>, rd0: Reader, rd: Reader, rd1: Reader, sym: Sym)
    requires Legal(h) && InBand(p) && p.kind.Refine? && k <= p.se && Between(h, p, z, u, w, k, e, rd0, rd)
    requires ReadSym(h, p, rd.Rest()).Some? && sym == ReadSym(h, p, rd.Rest()).value.0 && sym.Pass?
    requires rd1.Valid() && Took(rd, ReadSym(h, p, rd.Rest()).value.1, rd1)
    ensures Advance(w, k, p.se, p.al, sym.r, rd1.Rest()).None? ==> DecodeBlock(h, p, z, rd0.Rest(), 0).None?
  {
    hide Legal, Leads, Resume, Destuff, MarkerIn, StubIn, Bin, DecodeBlock, ReadSym, Advance;
    RefineBySym(h, p, w, k, rd.Rest());
  }

  lemma OverBetween(h: Table, p: Params, z: Block, u: Block, w: Block, k: nat, e: seq<bool>, rd0: Reader, rd: Reader)
    requires Legal(h) && InBand(p) && k > p.se && Between(h, p, z, u, w, k, e, rd0, rd)
    ensures DecodeBlock(h, p, z, rd0.Rest(), 0) == Some((w, rd.Rest(), 0)) && Took(rd0, rd.Rest(), rd)
  {
    hide Legal, Leads, Resume, Destuff, MarkerIn, StubIn, Bin, DecodeBlock;
    ResumeEnds(h, p, w, k, rd.Rest());
  }

  /** What decoding a block in place promises: the block and the state that the bit strings call for,
      or suspension that another try will not notice. */
  ghost predicate Done(h: Table, p: Params, order: seq<nat>, was: seq<int>, now: seq<int>, rd0: Reader, run0: nat,
                       ok: bool, rd: Reader, run: nat)
    requires Legal(h) && InBand(p) && NaturalOrder(order) && |was| == |now| == 64 && rd0.Valid()
  {
    var goal := DecodeBlock(h, p, Zigzag(order, was), rd0.Rest(), run0);
    if !ok then Stopped(h, p, order, was, now, rd0, run0)
    else
      && Goes(rd0, rd)
      && match goal
         case None => rd.unreadMarker != 0
         case Some((z, rest, n)) => Zigzag(order, now) == z && run == n && Took(rd0, rest, rd)
  }

  /** The body of decode_mcu_AC_refine. */
  method RefineBlock(block: array<int>, order: seq<nat>, p: Params, d: DDerived, rd0: Reader, run0: nat)
    returns (ok: bool, rd: Reader, run: nat)
    requires InBand(p) && p.kind.Refine? && NaturalOrder(order) && block.Length == 64 && rd0.Valid() && Decodes(d.pub, d)
    modifies block
    ensures Done(d.pub, p, order, old(block[..]), block[..], rd0, run0, ok, rd, run)
  {
    hide Legal, Lookahead, Leads, AdvLeads, Resume, Destuff, MarkerIn, StubIn, Bin, DecodeBlock, Advance, ReadSym, SymBitsAre,
      Reader.Rest, Reader.End, Reader.Future, Zigzag, SameFuture, Inside, AtEob, Without, Unfilled, Mix, Shr, Shl, Pow2, Bump;
    ghost var h, z := d.pub, Zigzag(order, block[..]);
    var newnzPos := new nat[64];
    var num, k := 0, p.ss;
    ghost var u, e0, e1 := z, [], [];
    ok, rd, run := true, rd0, run0;
    if run == 0 {
      ok, k, run, rd, num, u, e0, e1 := RefineSymbols(block, order, p, d, newnzPos, rd0);
      if !ok { return; }
    }
    if run > 0 {
      ghost var b0, w, rd1 := block[..], Zigzag(order, block[..]), rd;
      if run0 > 0 {
        RunGoal(h, p, z, run, rd0.Rest());
      } else if DecodeBlock(h, p, z, rd0.Rest(), 0).Some? || rd.unreadMarker == 0 {
        TailGoal(h, p, z, u, w, k, e0, e1, run, rd0, rd);
      }
      ghost var k1, r1, e2;
      ok, rd, k1, r1, e2 := CorrectRest(block, order, p, k, rd);
      ghost var w1 := Zigzag(order, block[..]);
      if !ok {
        if run0 == 0 {
          StoppedAfterEob(h, p, z, u, w, k, e0, e1, run, rd0, rd1, w1, k1, r1, e2, rd);
          WithoutNext(order, b0, block[..], newnzPos[..num], u, k, k, 0);
          UndoIt(block, newnzPos, num, order, Mix(u, w1, k));
        } else {
          StoppedInRun(h, p, w, w1, run, k1, r1, e2, rd0, rd);
          WithoutNone(order, block[..], k);
          assert newnzPos[..num] == [];
          UndoIt(block, newnzPos, num, order, w1);
        }
        return;
      }
      run := run - 1;
    }
  }

  // ---------- one block of a first scan ----------

  lemma BetweenNextFirst(h: Table, p: Params, z: Block, w: Block, k: nat, e0: seq<bool>, rd0: Reader, rd: Reader,
                         sym: Sym, rd1: Reader) returns (e: seq<bool>)
    requires Legal(h) && InBand(p) && !p.kind.Refine? && k <= p.se && Between(h, p, z, w, w, k, e0, rd0, rd)
    requires sym.Pass? && ReadSym(h, p, rd.Rest()).Some? && sym == ReadSym(h, p, rd.Rest()).value.0
    requires rd1.Valid() && Took(rd, ReadSym(h, p, rd.Rest()).value.1, rd1)
    ensures var w' := Store(w, k + sym.r, sym.v);
      Between(h, p, z, w', w', k + sym.r + 1, e, rd0, rd1)
  {
    hide Legal, Leads, Resume, Destuff, MarkerIn, StubIn, Bin, DecodeBlock, ReadSym, SymBitsAre;
    var e1 := SymRead(h, p, rd.Rest());
    e := e0 + e1;
    assert rd0.Rest() == e + rd1.Rest();
    FirstBySym(h, p, w, k, rd.Rest());
    var k1 := k + sym.r;
    if k1 <= p.se {
      LeadsFirst(h, p, z, z, w, k, e0, sym, e1, k1);
      LeadsFirst(h, p, w, Store(w, k1, sym.v), w, k, e0, sym, e1, k1);
    }
  }

  /** The bits run out, or the band ends in a run. */
  lemma BetweenLastFirst(h: Table, p: Params, z: Block, w: Block, k: nat, e: seq<bool>, rd0: Reader, rd: Reader)
    requires Legal(h) && InBand(p) && !p.kind.Refine? && k <= p.se && Between(h, p, z, w, w, k, e, rd0, rd)
    ensures var m := ReadSym(h, p, rd.Rest());
      && (m.None? ==> DecodeBlock(h, p, z, rd0.Rest(), 0).None?)
      && (m.Some? && m.value.0.Eob? ==> DecodeBlock(h, p, z, rd0.Rest(), 0) == Some((w, m.value.1, m.value.0.run - 1)))
    ensures Took(rd0, rd.Rest(), rd)
  {
    hide Legal, Leads, Resume, Destuff, MarkerIn, StubIn, Bin, DecodeBlock, ReadSym;
    FirstBySym(h, p, w, k, rd.Rest());
  }

  /** The body of decode_mcu_AC_first. */
  method FirstBlock(block: array<int>, order: seq<nat>, p: Params, d: DDerived, rd0: Reader, run0: nat)
    returns (ok: bool, rd: Reader, run: nat)
    requires InBand(p) && !p.kind.Refine? && NaturalOrder(order) && block.Length == 64 && rd0.Valid() && Decodes(d.pub, d)
    modifies block
    ensures Done(d.pub, p, order, old(block[..]), block[..], rd0, run0, ok, rd, run)
    ensures block[0] == old(block[0])
  {
    hide Legal, Lookahead, Leads, Resume, Destuff, MarkerIn, StubIn, Bin, DecodeFirst, DecodeRefine, Tail, ReadSym,
      Reader.Rest, Reader.End, Reader.Future, Zigzag, Between, SameFuture, Shr, Shl, Pow2;
    ghost var h, z := d.pub, Zigzag(order, block[..]);
    ok, rd, run := true, rd0, run0;
    if run > 0 {
      run := run - 1;
      return;
    }
    ghost var goal := DecodeBlock(h, p, z, rd0.Rest(), 0);
    ghost var e := [];
    var k := p.ss;
    BetweenStarts(h, p, z, rd);
    while k <= p.se
      invariant ok && p.ss <= k && run == 0 && Goes(rd0, rd) && block[0] == old(block[0])
      invariant goal.Some? || rd.unreadMarker == 0 ==>
        var w := Zigzag(order, block[..]);
        Between(h, p, z, w, w, k, e, rd0, rd)
      decreases p.se + 16 - k
    {
      ghost var w, was := Zigzag(order, block[..]), block[..];
      var sym, rd1;
      ok, sym, rd1 := ReadSymbol(rd, d, p);
      if !ok {
        StoppedBetween(h, p, z, w, w, k, e, rd0, rd);
        return;
      }
      if goal.Some? || rd1.unreadMarker == 0 { BetweenLastFirst(h, p, z, w, k, e, rd0, rd); }
      if sym.Eob? {
        run, rd := sym.run - 1, rd1;
        return;
      }
      if goal.Some? || rd1.unreadMarker == 0 { e := BetweenNextFirst(h, p, z, w, k, e, rd0, rd, sym, rd1); }
      k, rd := k + sym.r, rd1;
      if sym.v.Some? {
        NeverFirst(order, k);
        block[order[k]] := sym.v.value;
        ZigzagSet(order, was, k, sym.v.value);
        assert block[..] == was[order[k] := sym.v.value];
      }
      k := k + 1;
    }
    if goal.Some? || rd.unreadMarker == 0 {
      OverBetween(h, p, z, Zigzag(order, block[..]), Zigzag(order, block[..]), k, e, rd0, rd);
    }
  }
}
