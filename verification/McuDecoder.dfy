// decode_mcu (jdhuff.c), decode_mcu_DC_first and decode_mcu_DC_refine (jdphuff.c) as they run:
// several blocks per MCU decoded in place, predictions per component, restarts and suspension.
module McuDecoder {
  import opened Wrappers
  import opened Bits
  import opened HuffmanTable
  import opened DerivedTables
  import opened BitReader
  import opened BitWriter
  import opened Segments
  import opened Coefficients
  import opened AcBlocks
  import opened AcScan
  import opened AcReplay
  import opened AcDecoder
  import opened McuScan
  import opened McuReplay
  import opened McuEncoder
  import P = ProgressiveDecoder
  import opened ZigzagOrder

  /** The tables a decoder needs. */
  ghost predicate Supplied(c: Coder, dcTbls: seq<DDerived>, acTbls: seq<DDerived>) {
    && ValidCoder(c) && |dcTbls| == |acTbls| == MAX_COMPS_IN_SCAN
    && (forall i :: 0 <= i < MAX_COMPS_IN_SCAN ==> Decodes(c.dc[i], dcTbls[i]))
    && (forall i :: 0 <= i < MAX_COMPS_IN_SCAN ==> Decodes(c.ac[i], acTbls[i]))
  }

  /** HUFF_DECODE of a category, and HUFF_EXTEND of the bits that follow it. */
  method ReadDifference(rd0: Reader, d: DDerived) returns (ok: bool, diff: int, rd: Reader)
    requires rd0.Valid() && Decodes(d.pub, d) && SmallSymbols(d.pub)
    ensures rd0.End().Some? || rd0.unreadMarker != 0 ==> ok
    ensures ok ==> Goes(rd0, rd)
    ensures ok ==>
      var m := ReadDc(d.pub, rd0.Rest());
      if m.None? then rd.unreadMarker != 0 else diff == m.value.0 && Took(rd0, m.value.1, rd)
  {
    hide Destuff, MarkerIn, StubIn, Bin, Serial, Legal, Lookahead, TakeBits, Extend;
    var s, r;
    diff := 0;
    ok, s, rd := HuffDecode(rd0, d);
    if !ok { return; }
    if s != 0 {
      ok, r, rd := GetBits(rd, s);
      if !ok { return; }
      diff := Extend(r, s);
    }
  }

  /** What decoding one block in place promises. */
  ghost predicate ItemDone(c: Coder, order: seq<nat>, ci: component, last: int, was: seq<int>, now: seq<int>, rd0: Reader,
                           ok: bool, s: int, rd: Reader)
    requires ValidCoder(c) && NaturalOrder(order) && |was| == |now| == 64 && rd0.Valid()
  {
    if !ok then
      && rd0.End() == None && rd0.unreadMarker == 0
      && forall x: seq<bool> :: DecodeItem(c, ci, last, Zigzag(order, now), rd0.Rest() + x) == DecodeItem(c, ci, last, Zigzag(order, was), rd0.Rest() + x)
    else
      && Goes(rd0, rd)
      && match DecodeItem(c, ci, last, Zigzag(order, was), rd0.Rest())
         case None => rd.unreadMarker != 0
         case Some((z, s', rest)) => Zigzag(order, now) == z && s == s' && Took(rd0, rest, rd)
  }

  /** The loop body of decode_mcu and its DC-only relatives. */
  method DecodeInto(block: array<int>, order: seq<nat>, c: Coder, dcTbls: seq<DDerived>, acTbls: seq<DDerived>, ci: component, last: int, rd0: Reader)
    returns (ok: bool, s: int, rd: Reader)
    requires Supplied(c, dcTbls, acTbls) && NaturalOrder(order) && block.Length == 64 && rd0.Valid()
    modifies block
    ensures ItemDone(c, order, ci, last, old(block[..]), block[..], rd0, ok, s, rd)
  {
    hide Legal, Lookahead, Destuff, MarkerIn, StubIn, Bin, ReadDc, DecodeBlock, Zigzag, NaturalOrder, Shl, Shr, TakeBits, Reader.Rest, Reader.End, Reader.Future;
    ghost var was, z := block[..], Zigzag(order, block[..]);
    ZigzagDc(order, was);
    s := last;
    match c.mode {
      case DcRefine(al) =>
        var x;
        TakeOne(rd0.Rest());
        TakeNone(rd0.Rest());
        ok, x, rd := GetBits(rd0, 1);
        if !ok { return; }
        if x == 1 { block[0] := AddBit(block[0], al); }
        SetDc(order, was, block[..]);
      case DcFirst(al) =>
        var diff;
        ok, diff, rd := ReadDifference(rd0, dcTbls[ci]);
        if !ok { return; }
        s := diff + last;
        block[0] := Shl(s, al);
        SetDc(order, was, block[..]);
      case Whole =>
        ok, s, rd := DecodeWhole(block, order, c, dcTbls[ci], acTbls[ci], ci, last, rd0);
    }
  }

  lemma SetDc(order: seq<nat>, was: seq<int>, now: seq<int>)
    requires NaturalOrder(order) && |was| == |now| == 64 && forall i :: 1 <= i < 64 ==> now[i] == was[i]
    ensures Zigzag(order, now) == Zigzag(order, was)[0 := now[0]]
  {
    ZigzagSet(order, was, 0, now[0]);
    assert now == was[0 := now[0]];
  }

  /** A sequential block: the DC difference, then the AC coefficients. */
  method DecodeWhole(block: array<int>, order: seq<nat>, c: Coder, dcTbl: DDerived, acTbl: DDerived, ci: component, last: int, rd0: Reader)
    returns (ok: bool, s: int, rd: Reader)
    requires ValidCoder(c) && c.mode.Whole? && Decodes(c.dc[ci], dcTbl) && Decodes(c.ac[ci], acTbl)
    requires NaturalOrder(order) && block.Length == 64 && rd0.Valid()
    modifies block
    ensures ItemDone(c, order, ci, last, old(block[..]), block[..], rd0, ok, s, rd)
  {
    hide Legal, Lookahead, Destuff, MarkerIn, StubIn, Bin, ReadDc, DecodeBlock, Zigzag, NaturalOrder, Reader.Rest, Reader.End, Reader.Future;
    ghost var was, z := block[..], Zigzag(order, block[..]);
    ok, s, rd := ReadDifference(rd0, dcTbl);
    if !ok { return; }
    s := s + last;
    block[0] := s;
    SetDc(order, was, block[..]);
    ghost var rd1, mid := rd, block[..];
    var run;
    ok, rd, run := FirstBlock(block, order, WHOLE_BAND, acTbl, rd, 0);
    if !ok { WholeStopped(c, order, ci, last, was, mid, block[..], rd0, rd1); }
  }

  lemma WholeStopped(c: Coder, order: seq<nat>, ci: component, last: int, was: seq<int>, mid: seq<int>, now: seq<int>, rd0: Reader, rd1: Reader)
    requires ValidCoder(c) && c.mode.Whole? && NaturalOrder(order) && |was| == |mid| == |now| == 64 && rd0.Valid() && rd1.Valid()
    requires Zigzag(order, mid) == Zigzag(order, was)[0 := mid[0]] && now[0] == mid[0]
    requires ReadDc(c.dc[ci], rd0.Rest()).Some? && ReadDc(c.dc[ci], rd0.Rest()).value.0 + last == mid[0]
    requires Took(rd0, ReadDc(c.dc[ci], rd0.Rest()).value.1, rd1)
    requires SameFuture(c.ac[ci], WHOLE_BAND, Zigzag(order, now), Zigzag(order, mid), rd1.Rest(), 0)
    ensures forall x: seq<bool> :: DecodeItem(c, ci, last, Zigzag(order, now), rd0.Rest() + x) == DecodeItem(c, ci, last, Zigzag(order, was), rd0.Rest() + x)
  {
    hide Legal, ReadDc, DecodeBlock, Zigzag, NaturalOrder, Reader.Rest, Reader.End, Reader.Future;
    var b, b1 := rd0.Rest(), rd1.Rest();
    ZigzagDc(order, now);
    assert Zigzag(order, now)[0 := mid[0]] == Zigzag(order, now);
    forall x: seq<bool> ensures DecodeItem(c, ci, last, Zigzag(order, now), b + x) == DecodeItem(c, ci, last, Zigzag(order, was), b + x) {
      ReadDcLocal(c.dc[ci], b, b1 + x);
      assert b + x == b[..|b| - |b1|] + (b1 + x);
    }
  }

  // ---------- MCUs ----------

  /** What decoding the blocks of an MCU in place promises. */
  ghost predicate McuDone(c: Coder, last0: seq<int>, was: seq<Item>, now: seq<Item>, rd0: Reader,
                          ok: bool, last: seq<int>, rd: Reader)
    requires ValidCoder(c) && |last0| == MAX_COMPS_IN_SCAN && rd0.Valid()
  {
    if !ok then
      && rd0.End() == None && rd0.unreadMarker == 0
      && forall x: seq<bool> :: GetAll(c, last0, now, rd0.Rest() + x) == GetAll(c, last0, was, rd0.Rest() + x)
    else
      && Goes(rd0, rd) && |last| == MAX_COMPS_IN_SCAN
      && match GetAll(c, last0, was, rd0.Rest())
         case None => rd.unreadMarker != 0
         case Some((zs, last', rest)) => Blocks(now) == zs && last == last' && Took(rd0, rest, rd)
  }

  /** Midway through an MCU: `done` blocks have been decoded from the bits e. */
  ghost predicate Through(c: Coder, last0: seq<int>, items: seq<Item>, k: nat, done: seq<Item>, last: seq<int>, e: seq<bool>,
                          rd0: Reader, rd: Reader)
    requires ValidCoder(c) && |last0| == MAX_COMPS_IN_SCAN && k <= |items|
  {
    && Replays(c, last0, items[..k], done, last, e)
    && rd0.Valid() && rd.Valid() && rd0.Rest() == e + rd.Rest() && Took(rd0, rd.Rest(), rd)
  }

  lemma ThroughStarts(c: Coder, last0: seq<int>, items: seq<Item>, rd: Reader)
    requires ValidCoder(c) && |last0| == MAX_COMPS_IN_SCAN && rd.Valid()
    ensures Through(c, last0, items, 0, [], last0, [], rd, rd)
  {
    hide Legal, Replays, Destuff, MarkerIn, StubIn, Bin;
    ReplaysNone(c, last0);
    assert items[..0] == [] && [] + rd.Rest() == rd.Rest();
  }

  lemma ThroughNext(c: Coder, order: seq<nat>, last0: seq<int>, items: seq<Item>, k: nat, done: seq<Item>, last: seq<int>, e: seq<bool>,
                    rd0: Reader, rd: Reader, was: seq<int>, now: seq<int>, ok: bool, s: int, rd': Reader) returns (e': seq<bool>)
    requires ValidCoder(c) && NaturalOrder(order) && |last0| == MAX_COMPS_IN_SCAN && k < |items| && |was| == |now| == 64
    requires Through(c, last0, items, k, done, last, e, rd0, rd) && items[k].z == Zigzag(order, was)
    requires ItemDone(c, order, items[k].ci, last[items[k].ci], was, now, rd, ok, s, rd')
    requires Goes(rd0, rd)
    ensures !ok ==>
      McuDone(c, last0, items, done + [Item(items[k].ci, Zigzag(order, now))] + items[k + 1..], rd0, false, last, rd0)
    ensures ok && DecodeItem(c, items[k].ci, last[items[k].ci], items[k].z, rd.Rest()).Some? ==>
      Through(c, last0, items, k + 1, done + [Item(items[k].ci, Zigzag(order, now))], last[items[k].ci := s], e', rd0, rd')
    ensures DecodeItem(c, items[k].ci, last[items[k].ci], items[k].z, rd.Rest()).None? ==> GetAll(c, last0, items, rd0.Rest()).None?
  {
    hide Legal, SmallSymbols, DecodeItem, Destuff, MarkerIn, StubIn, Bin, Zigzag, GetAll, Reader.Rest, Reader.End, Reader.Future;
    var x := items[k];
    assert items[..k + 1] == items[..k] + [x] && items == items[..k + 1] + items[k + 1..];
    e' := e;
    GetNext(c, last0, items[..k], x, e + rd.Rest());
    if ok {
      if DecodeItem(c, x.ci, last[x.ci], x.z, rd.Rest()).Some? {
        e' := ReplaysNext(c, last0, items[..k], done, last, e, x, rd.Rest());
      } else if GetAll(c, last0, items, rd0.Rest()).Some? {
        GetPrefix(c, last0, items[..k + 1], items[k + 1..], rd0.Rest());
      }
    } else {
      McuStopped(c, last0, items[..k], done, last, e, x.ci, x.z, Zigzag(order, now), items[k + 1..], rd.Rest());
      if DecodeItem(c, x.ci, last[x.ci], x.z, rd.Rest()).None? && GetAll(c, last0, items, rd0.Rest()).Some? {
        GetPrefix(c, last0, items[..k + 1], items[k + 1..], rd0.Rest());
      }
    }
  }

  /** An MCU that ends before its bits do. */
  lemma ThroughShort(c: Coder, last0: seq<int>, items: seq<Item>, now: seq<Item>, last: seq<int>, rd0: Reader, rd: Reader)
    requires ValidCoder(c) && |last0| == MAX_COMPS_IN_SCAN && Goes(rd0, rd) && |last| == MAX_COMPS_IN_SCAN
    requires GetAll(c, last0, items, rd0.Rest()).None? && rd.unreadMarker != 0
    ensures McuDone(c, last0, items, now, rd0, true, last, rd)
  {
  }

  lemma ThroughEnds(c: Coder, last0: seq<int>, items: seq<Item>, done: seq<Item>, last: seq<int>, e: seq<bool>, rd0: Reader, rd: Reader)
    requires ValidCoder(c) && |last0| == MAX_COMPS_IN_SCAN && Through(c, last0, items, |items|, done, last, e, rd0, rd) && Goes(rd0, rd)
    ensures McuDone(c, last0, items, done, rd0, true, last, rd)
  {
    hide Legal, SmallSymbols, GetAll, Destuff, MarkerIn, StubIn, Bin, Reader.Rest, Reader.End, Reader.Future;
    assert items[..|items|] == items;
  }

  /** Only block k has changed. */
  lemma ItemsChanged(membership: seq<component>, order: seq<nat>, was: seq<seq<int>>, now: seq<seq<int>>, k: nat)
    requires NaturalOrder(order) && k < |was| == |now| == |membership|
    requires (forall i :: 0 <= i < |was| ==> |was[i]| == 64) && (forall i :: 0 <= i < |now| ==> |now[i]| == 64)
    requires forall i :: 0 <= i < |was| && i != k ==> now[i] == was[i]
    ensures ItemsOf(membership, order, now, k) == ItemsOf(membership, order, was, k)
    ensures ItemsOf(membership, order, now, k + 1) == ItemsOf(membership, order, was, k) + [Item(membership[k], Zigzag(order, now[k]))]
    ensures ItemsOf(membership, order, now, |now|) ==
      ItemsOf(membership, order, was, k) + [Item(membership[k], Zigzag(order, now[k]))] + ItemsOf(membership, order, was, |was|)[k + 1..]
  {
    hide Zigzag;
  }

  lemma ItemAt(membership: seq<component>, order: seq<nat>, raw: seq<seq<int>>, k: nat)
    requires NaturalOrder(order) && k < |raw| == |membership| && forall i :: 0 <= i < |raw| ==> |raw[i]| == 64
    ensures ItemsOf(membership, order, raw, |raw|)[k] == Item(membership[k], Zigzag(order, raw[k]))
  {
  }

  lemma LaterItems(membership: seq<component>, order: seq<nat>, was: seq<seq<int>>, now: seq<seq<int>>, k: nat)
    requires NaturalOrder(order) && k <= |was| == |now| == |membership|
    requires (forall i :: 0 <= i < |was| ==> |was[i]| == 64) && (forall i :: 0 <= i < |now| ==> |now[i]| == 64)
    requires forall i :: k <= i < |was| ==> now[i] == was[i]
    ensures ItemsOf(membership, order, now, |now|)[k..] == ItemsOf(membership, order, was, |was|)[k..]
  {
    hide Zigzag;
  }

  // ---------- whole scans ----------

  /** A scan as the encoder saw it: the MCUs of each segment, what the decoder starts from, the marker
      after the scan and the rest of the input. */
  datatype Script = Script(zss: seq<seq<Mcu>>, befores: seq<seq<Mcu>>, next: byte, after: seq<byte>)

  ghost predicate Coded(c: Coder, s: Script, restartInterval: nat)
    requires ValidCoder(c)
  {
    && s.next != 0 && s.next != 0xFF && |s.zss| == |s.befores| > 0
    && (forall i :: 0 <= i < |s.zss| ==> |s.befores[i]| == |s.zss[i]| && SendAll(c, Flat(s.zss[i])).ok)
    && (forall i, j :: 0 <= i < |s.zss| && 0 <= j < |s.zss[i]| ==> ItemsReady(c, s.befores[i][j], s.zss[i][j]))
    && (if restartInterval == 0 then |s.zss| == 1 else |s.zss[|s.zss| - 1]| <= restartInterval)
    && forall i :: 0 <= i < |s.zss| - 1 ==> |s.zss[i]| == restartInterval
  }

  /** The reader and the predictions are those of a decoder that has had j MCUs of segment i: it has
      consumed just the bits that the encoder sent for them. */
  ghost predicate At(c: Coder, s: Script, restartInterval: nat, i: nat, j: nat, r: Reader, last: seq<int>)
    requires ValidCoder(c)
  {
    && Coded(c, s, restartInterval) && i < |s.zss| && j <= |s.zss[i]|
    && r.Valid() && !r.insufficient && r.End() == Some(EndOf(McuSegments(c, s.zss), i, s.next, s.after))
    && var e, all := SendAll(c, Flat(s.zss[i][..j])), SendAll(c, Flat(s.zss[i])).bits;
       last == e.last && e.bits + r.Rest() == all + Pad(all)
  }

  lemma AtStart(c: Coder, s: Script, restartInterval: nat, r: Reader)
    requires ValidCoder(c) && Coded(c, s, restartInterval)
    requires P.Begins(r, ScanBytes(McuSegments(c, s.zss)) + ([0xFF, s.next] + s.after))
    ensures At(c, s, restartInterval, 0, 0, r, NoLast)
  {
    hide Legal, Destuff, MarkerIn, StubIn, ScanBytes, From, Bin, Bytes, Pad, SmallSymbols;
    var segs := McuSegments(c, s.zss);
    ScanFrom(segs, [0xFF, s.next] + s.after);
    FromReads(segs, 0, s.next, s.after);
    FirstMcu(c, s.zss[0], r.Rest());
  }

  lemma FirstMcu(c: Coder, zs: seq<Mcu>, b: seq<bool>)
    requires ValidCoder(c)
    ensures SendAll(c, Flat(zs[..0])).last == NoLast && SendAll(c, Flat(zs[..0])).bits + b == b
  {
    assert zs[..0] == [];
    FlatNone();
    SendNone(c);
  }

  lemma AtNextSegment(c: Coder, s: Script, restartInterval: nat, i: nat, r: Reader, last: seq<int>, r': Reader)
    requires ValidCoder(c) && i + 1 < |s.zss| && At(c, s, restartInterval, i, |s.zss[i]|, r, last)
    ensures r.End().Some? && r.End().value.0 == RestartCode(i)
    ensures P.Begins(r', r.End().value.1) ==> At(c, s, restartInterval, i + 1, 0, r', NoLast)
  {
    hide Legal, Destuff, MarkerIn, StubIn, ScanBytes, From, Bin, Bytes, Pad, SmallSymbols, SendAll;
    FromReads(McuSegments(c, s.zss), i + 1, s.next, s.after);
    if P.Begins(r', r.End().value.1) { FirstMcu(c, s.zss[i + 1], r'.Rest()); }
  }

  lemma AtPlace(c: Coder, s: Script, restartInterval: nat, i: nat, j: nat, r: Reader, last: seq<int>)
    requires ValidCoder(c) && At(c, s, restartInterval, i, j, r, last)
    ensures !r.insufficient && i < |s.zss| == |s.befores| && j <= |s.zss[i]| == |s.befores[i]| && |last| == MAX_COMPS_IN_SCAN
    ensures restartInterval > 0 ==> |s.zss[i]| <= restartInterval && (i + 1 < |s.zss| ==> |s.zss[i]| == restartInterval)
    ensures restartInterval == 0 ==> i + 1 == |s.zss|
  {
    hide Legal, SmallSymbols, EndOf;
  }

  /** With the bits of j MCUs behind it, a decoder finds the next MCU and what comes after it. */
  lemma NextMcu(c: Coder, zs: seq<Mcu>, j: nat, before: Mcu, b: seq<bool>, pad: seq<bool>) returns (t: seq<bool>)
    requires ValidCoder(c) && j < |zs| && SendAll(c, Flat(zs)).ok && ItemsReady(c, before, zs[j])
    requires SendAll(c, Flat(zs[..j])).bits + b == SendAll(c, Flat(zs)).bits + pad
    ensures GetAll(c, SendAll(c, Flat(zs[..j])).last, before, b)
         == Some((ItemsAfter(c, before, zs[j]), SendAll(c, Flat(zs[..j + 1])).last, t))
    ensures SendAll(c, Flat(zs[..j + 1])).bits + t == SendAll(c, Flat(zs)).bits + pad
  {
    hide Legal, SmallSymbols, SendAll, GetAll, Flat, ItemsReady, ItemsAfter, Adds;
    var xs, ys, rest := Flat(zs[..j]), zs[j], Flat(zs[j + 1..]);
    assert zs[..j + 1] == zs[..j] + [ys] && zs == zs[..j + 1] + zs[j + 1..];
    FlatNext(zs[..j], ys);
    FlatAppend(zs[..j + 1], zs[j + 1..]);
    SendPrefix(c, xs + ys, rest);
    SendAdds(c, xs, ys);
    SendAdds(c, xs + ys, rest);
    t := Adds(c, xs + ys, rest) + pad;
    Behind(SendAll(c, xs).bits, Adds(c, xs, ys), Adds(c, xs + ys, rest), pad, b);
    McuRoundTrip(c, xs, ys, before, t);
  }

  lemma Behind(p: seq<bool>, a: seq<bool>, r: seq<bool>, pad: seq<bool>, b: seq<bool>)
    requires p + b == p + a + r + pad
    ensures b == a + (r + pad) && p + a + (r + pad) == p + a + r + pad
  {
    assert p + a + r + pad == p + (a + (r + pad));
    assert b == (p + b)[|p|..] == (p + (a + (r + pad)))[|p|..] == a + (r + pad);
  }

  /** Decoding the next MCU completes, gives what the encoder meant, and leads to the place after it. */
  lemma AtNextMcu(c: Coder, s: Script, restartInterval: nat, i: nat, j: nat, r: Reader, last: seq<int>, was: seq<Item>, now: seq<Item>,
                  ok: bool, last': seq<int>, r': Reader)
    requires ValidCoder(c) && At(c, s, restartInterval, i, j, r, last) && j < |s.zss[i]| && |last| == MAX_COMPS_IN_SCAN
    requires McuDone(c, last, was, now, r, ok, last', r') && GetAll(c, last, was, r.Rest()) == GetAll(c, last, s.befores[i][j], r.Rest())
    ensures ok && Blocks(now) == ItemsAfter(c, s.befores[i][j], s.zss[i][j])
    ensures At(c, s, restartInterval, i, j + 1, r', last')
  {
    hide Legal, SmallSymbols, EndOf, Destuff, MarkerIn, StubIn, Bin, Pad, SendAll, GetAll, Flat, ItemsReady, ItemsAfter, Reader.Rest, Reader.End, Reader.Future, Blocks;
    var t := NextMcu(c, s.zss[i], j, s.befores[i][j], r.Rest(), Pad(SendAll(c, Flat(s.zss[i])).bits));
  }

  datatype Outcome = Completed | Waiting | Lost

  class HuffDecoder {
    const c: Coder
    const dcTbls: seq<DDerived>
    const acTbls: seq<DDerived>
    const order: seq<nat>
    const restartInterval: nat

    /** bitstate with the source, saved.last_dc_val, and the restart counters. */
    var bits: Reader
    var lastDc: seq<int>
    var restartsToGo: nat
    var nextRestartNum: nat

    ghost predicate Static()
    {
      Supplied(c, dcTbls, acTbls) && NaturalOrder(order) && restartInterval < 0x1_0000
    }

    ghost predicate Valid()
      reads this
    {
      && Static() && bits.Valid() && |lastDc| == MAX_COMPS_IN_SCAN
      && restartsToGo < 0x1_0000_0000 && nextRestartNum < 8
    }

    /** The loop over the blocks of an MCU, on the working state. */
    method DecodeBlocks(blocks: seq<array<int>>, rd0: Reader, last0: seq<int>) returns (ok: bool, last: seq<int>, rd: Reader)
      requires Static() && rd0.Valid() && |last0| == MAX_COMPS_IN_SCAN && |blocks| == |c.membership|
      requires forall i :: 0 <= i < |blocks| ==> blocks[i].Length == 64
      requires forall i, j :: 0 <= i < j < |blocks| ==> blocks[i] != blocks[j]
      modifies blocks
      ensures McuDone(c, last0, ItemsOf(c.membership, order, old(Contents(blocks)), |blocks|),
                      ItemsOf(c.membership, order, Contents(blocks), |blocks|), rd0, ok, last, rd)
    {
      hide Legal, Decodes, SmallSymbols, NaturalOrder, GetAll, DecodeItem, Through, Zigzag, Destuff, MarkerIn, StubIn, Bin, Reader.Rest, Reader.End, Reader.Future, ItemsOf, McuDone;
      ghost var raw := Contents(blocks);
      ghost var items := ItemsOf(c.membership, order, raw, |blocks|);
      ghost var goal := GetAll(c, last0, items, rd0.Rest());
      ok, last, rd := true, last0, rd0;
      ghost var done: seq<Item>, e: seq<bool> := [], [];
      ThroughStarts(c, last0, items, rd0);
      ItemsNone(c.membership, order, raw);
      for blkn := 0 to |c.membership|
        invariant ok && |last| == MAX_COMPS_IN_SCAN && Goes(rd0, rd)
        invariant forall i :: blkn <= i < |blocks| ==> blocks[i][..] == raw[i]
        invariant goal.Some? || rd.unreadMarker == 0 ==>
          Through(c, last0, items, blkn, done, last, e, rd0, rd) && done == ItemsOf(c.membership, order, Contents(blocks), blkn)
      {
        var ci := c.membership[blkn];
        var block := blocks[blkn];
        ghost var before := Contents(blocks);
        ItemAt(c.membership, order, raw, blkn);
        LaterItems(c.membership, order, raw, before, blkn);
        var s, rd1;
        ok, s, rd1 := DecodeInto(block, order, c, dcTbls, acTbls, ci, last[ci], rd);
        ghost var now := Contents(blocks);
        ghost var x := Item(ci, Zigzag(order, block[..]));
        ItemsChanged(c.membership, order, before, now, blkn);
        if !ok {
          e := ThroughNext(c, order, last0, items, blkn, done, last, e, rd0, rd, raw[blkn], block[..], ok, s, rd1);
          assert ItemsOf(c.membership, order, before, |blocks|)[blkn + 1..] == items[blkn + 1..];
          rd := rd0;
          return;
        }
        if goal.Some? || rd1.unreadMarker == 0 {
          e := ThroughNext(c, order, last0, items, blkn, done, last, e, rd0, rd, raw[blkn], block[..], ok, s, rd1);
          done := done + [x];
        }
        last, rd := last[ci := s], rd1;
      }
      if goal.Some? || rd.unreadMarker == 0 {
        ThroughEnds(c, last0, items, done, last, e, rd0, rd);
      } else {
        ThroughShort(c, last0, items, ItemsOf(c.membership, order, Contents(blocks), |blocks|), last, rd0, rd);
      }
    }

    /** start_pass_huff_decoder, or start_pass_phuff_decoder for a DC scan. */
    constructor (c: Coder, dcTbls: seq<DDerived>, acTbls: seq<DDerived>, order: seq<nat>, restartInterval: nat, input: seq<byte>, ghost s: Script)
      requires Supplied(c, dcTbls, acTbls) && NaturalOrder(order) && restartInterval < 0x1_0000
      ensures Valid() && this.c == c && this.order == order && this.restartInterval == restartInterval
      ensures P.Begins(bits, input) && lastDc == NoLast && restartsToGo == restartInterval && nextRestartNum == 0
      ensures Coded(c, s, restartInterval) && input == ScanBytes(McuSegments(c, s.zss)) + ([0xFF, s.next] + s.after) ==> Stands(s, 0, 0)
    {
      this.c, this.dcTbls, this.acTbls, this.order, this.restartInterval := c, dcTbls, acTbls, order, restartInterval;
      bits := Reader(input, 0, 0, 0, 0, false);
      lastDc, restartsToGo, nextRestartNum := NoLast, restartInterval, 0;
      new;
      P.Fresh(input);
      if Coded(c, s, restartInterval) && input == ScanBytes(McuSegments(c, s.zss)) + ([0xFF, s.next] + s.after) {
        AtStart(c, s, restartInterval, bits);
      }
    }

    predicate Due()
      reads this
    {
      restartInterval > 0 && restartsToGo == 0
    }

    /** A restart is due that cannot be taken. */
    ghost predicate Stuck()
      requires bits.Valid()
      reads this
    {
      Due() && (bits.End().None? || bits.End().value.0 != RestartCode(nextRestartNum))
    }

    /** The decoder has had j MCUs of segment i of a scan. */
    ghost predicate Stands(s: Script, i: nat, j: nat)
      reads this
    {
      && Valid() && At(c, s, restartInterval, i, j, bits, lastDc)
      && nextRestartNum == i % 8 && (restartInterval > 0 ==> restartsToGo == restartInterval - j)
    }

    /** The source has received more. */
    method Refill(more: seq<byte>)
      requires Valid()
      modifies this`bits
      ensures Valid() && bits == P.Refilled(old(bits), more)
    {
      hide Static;
      bits := P.Refilled(bits, more);
    }

    /** process_restart */
    method Restart(ghost s: Script, ghost i: nat) returns (res: Segments.Restart)
      requires Valid()
      modifies this
      ensures Valid() && bits.input == old(bits.input)
      ensures res.Suspended? <==> old(bits.End()).None?
      ensures res.Resumed? <==> old(bits.End()).Some? && old(bits.End()).value.0 == RestartCode(old(nextRestartNum))
      ensures res.Resumed? ==> P.Begins(bits, old(bits.End()).value.1) && bits.unreadMarker == 0
      ensures res.Resumed? ==> lastDc == NoLast && restartsToGo == restartInterval && nextRestartNum == (old(nextRestartNum) + 1) % 8
      ensures !res.Resumed? ==> lastDc == old(lastDc) && restartsToGo == old(restartsToGo) && nextRestartNum == old(nextRestartNum)
      ensures res.Suspended? ==> bits == old(bits).(bitsLeft := 0)
      ensures i + 1 < |s.zss| && old(Stands(s, i, |s.zss[i]|)) ==> res.Resumed? && Stands(s, i + 1, 0)
    {
      hide Legal, Decodes, SmallSymbols, NaturalOrder, Destuff, MarkerIn, StubIn, Pow2, At;
      ghost var before, r0, last0 := i + 1 < |s.zss| && Stands(s, i, |s.zss[i]|), bits, lastDc;
      res, bits := ProcessRestart(bits, nextRestartNum);
      if before { AtNextSegment(c, s, restartInterval, i, r0, last0, bits); }
      if !res.Resumed? { return; }
      lastDc := NoLast;
      restartsToGo := restartInterval;
      nextRestartNum := (nextRestartNum + 1) % 8;
    }

    /** One MCU without the restart check: nothing is saved unless it is complete. */
    method DecodeOne(blocks: seq<array<int>>, ghost s: Script, ghost i: nat, ghost j: nat) returns (ok: bool)
      requires Valid() && |blocks| == |c.membership| && forall b :: 0 <= b < |blocks| ==> blocks[b].Length == 64
      requires forall a, b :: 0 <= a < b < |blocks| ==> blocks[a] != blocks[b]
      modifies this, blocks
      ensures Valid() && nextRestartNum == old(nextRestartNum)
      ensures var was, now := ItemsOf(c.membership, order, old(Contents(blocks)), |blocks|), ItemsOf(c.membership, order, Contents(blocks), |blocks|);
        && (old(bits.insufficient) && !c.mode.DcRefine? ==> ok && now == was && bits == old(bits) && lastDc == old(lastDc))
        && (!old(bits.insufficient) ==> McuDone(c, old(lastDc), was, now, old(bits), ok, lastDc, bits))
        && (i < |s.zss| == |s.befores| && j < |s.zss[i]| == |s.befores[i]| && old(Stands(s, i, j)) && was == s.befores[i][j] ==>
             ok && Stands(s, i, j + 1) && Blocks(now) == ItemsAfter(c, s.befores[i][j], s.zss[i][j]))
      ensures !ok ==> bits == old(bits) && lastDc == old(lastDc) && restartsToGo == old(restartsToGo)
      ensures ok ==> restartsToGo == (old(restartsToGo) + 0xFFFF_FFFF) % 0x1_0000_0000
    {
      hide Legal, Decodes, SmallSymbols, NaturalOrder, Destuff, MarkerIn, StubIn, Pow2, At, McuDone, ItemsOf, ItemsAfter, ItemsReady, Blocks, GetAll, Contents, Reader.Rest, Reader.End;
      ok := true;
      ghost var was := ItemsOf(c.membership, order, Contents(blocks), |blocks|);
      ghost var before := i < |s.zss| == |s.befores| && j < |s.zss[i]| == |s.befores[i]| && Stands(s, i, j) && was == s.befores[i][j];
      ghost var r0, last0 := bits, lastDc;
      if before { AtPlace(c, s, restartInterval, i, j, bits, lastDc); }
      if !bits.insufficient || c.mode.DcRefine? {
        var last, rd;
        ok, last, rd := DecodeBlocks(blocks, bits, lastDc);
        ghost var now := ItemsOf(c.membership, order, Contents(blocks), |blocks|);
        if before { AtNextMcu(c, s, restartInterval, i, j, r0, last0, was, now, ok, last, rd); }
        DoneStops(c, last0, was, now, r0, ok, last, rd);
        if !ok { return; }
        bits, lastDc := rd, last;
      }
      restartsToGo := (restartsToGo + 0xFFFF_FFFF) % 0x1_0000_0000;
    }

    /** decode_mcu, decode_mcu_DC_first and decode_mcu_DC_refine.  `start` and `last` are what the MCU
        is decoded from: the saved state, or the state that a due restart leads to.  A decoder that
        stands in a scan decodes the next MCU of that scan. */
    method DecodeMcu(blocks: seq<array<int>>, ghost s: Script, ghost i: nat, ghost j: nat)
      returns (res: Outcome, ghost start: Reader, ghost last: seq<int>)
      requires Valid() && |blocks| == |c.membership| && forall b :: 0 <= b < |blocks| ==> blocks[b].Length == 64
      requires forall a, b :: 0 <= a < b < |blocks| ==> blocks[a] != blocks[b]
      modifies this, blocks
      ensures Valid() && start.Valid() && |last| == MAX_COMPS_IN_SCAN
      ensures res.Lost? <==> old(Stuck() && bits.End().Some?)
      ensures !old(Due()) ==> start == old(bits) && last == old(lastDc)
      ensures old(Due() && !Stuck()) ==> P.Begins(start, old(bits.End()).value.1) && last == NoLast
      ensures res.Waiting? ==> bits == start && lastDc == last
      ensures old(Stuck()) && res.Waiting? ==> bits == old(bits).(bitsLeft := 0) && lastDc == old(lastDc)
      ensures nextRestartNum == if old(Due() && !Stuck()) then (old(nextRestartNum) + 1) % 8 else old(nextRestartNum)
      ensures var togo := if old(Due() && !Stuck()) then restartInterval else old(restartsToGo);
        restartsToGo == if res.Completed? then (togo + 0xFFFF_FFFF) % 0x1_0000_0000 else togo
      ensures var was, now := ItemsOf(c.membership, order, old(Contents(blocks)), |blocks|), ItemsOf(c.membership, order, Contents(blocks), |blocks|);
        && (old(Stuck()) ==> !res.Completed? && now == was)
        && (!old(Stuck()) && start.insufficient && !c.mode.DcRefine? ==> res.Completed? && now == was)
        && (!old(Stuck()) && !start.insufficient ==> McuDone(c, last, was, now, start, res.Completed?, lastDc, bits))
        && (old(Stands(s, i, j)) && Upcoming(s, i, j) && was == s.befores[Next(s, i, j).0][Next(s, i, j).1] ==>
             res.Completed? && Stands(s, Next(s, i, j).0, Next(s, i, j).1 + 1)
             && Blocks(now) == ItemsAfter(c, was, s.zss[Next(s, i, j).0][Next(s, i, j).1]))
    {
      hide Legal, Decodes, SmallSymbols, NaturalOrder, Destuff, MarkerIn, StubIn, Pow2, At, McuDone, ItemsOf, ItemsAfter, ItemsReady, Blocks;
      start, last := bits, lastDc;
      ghost var i', j' := if i < |s.zss| then Next(s, i, j).0 else i, if i < |s.zss| then Next(s, i, j).1 else j;
      if Stands(s, i, j) { AtPlace(c, s, restartInterval, i, j, bits, lastDc); }
      if restartInterval > 0 && restartsToGo == 0 {
        var r := Restart(s, i);
        if r.Suspended? { return Waiting, bits, lastDc; }
        if r.OutOfStep? { return Lost, bits, lastDc; }
      }
      start, last := bits, lastDc;
      var ok := DecodeOne(blocks, s, i', j');
      res := if ok then Completed else Waiting;
    }
  }

  lemma DoneStops(c: Coder, last0: seq<int>, was: seq<Item>, now: seq<Item>, rd0: Reader, ok: bool, last: seq<int>, rd: Reader)
    requires ValidCoder(c) && |last0| == MAX_COMPS_IN_SCAN && rd0.Valid() && McuDone(c, last0, was, now, rd0, ok, last, rd)
    ensures ok ==> rd.Valid() && |last| == MAX_COMPS_IN_SCAN
    ensures !ok ==> McuDone(c, last0, was, now, rd0, ok, last0, rd0)
  {
    hide Legal, SmallSymbols, GetAll;
  }

  /** The next MCU of a scan after j MCUs of segment i. */
  ghost predicate Upcoming(s: Script, i: nat, j: nat) {
    && |s.zss| == |s.befores| && i < |s.zss|
    && Next(s, i, j).0 < |s.zss| && Next(s, i, j).1 < |s.zss[Next(s, i, j).0]| == |s.befores[Next(s, i, j).0]|
  }

  ghost function Next(s: Script, i: nat, j: nat): (nat, nat)
    requires i < |s.zss|
  {
    if j < |s.zss[i]| then (i, j) else (i + 1, 0)
  }

  /** Suspension is invisible here too: with more input the half-decoded MCU decodes as the original. */
  lemma RetryDecodes(c: Coder, last0: seq<int>, was: seq<Item>, now: seq<Item>, r: Reader, last: seq<int>, rd: Reader, more: seq<byte>)
    requires ValidCoder(c) && |last0| == MAX_COMPS_IN_SCAN && r.Valid() && McuDone(c, last0, was, now, r, false, last, rd)
    ensures P.Refilled(r, more).Valid()
    ensures GetAll(c, last0, now, P.Refilled(r, more).Rest()) == GetAll(c, last0, was, P.Refilled(r, more).Rest())
  {
    hide Legal, SmallSymbols, GetAll, Destuff, MarkerIn, StubIn, Bin, Reader.Rest, Reader.End, Reader.Future;
    P.RefilledReads(r, more);
    var r' := P.Refilled(r, more);
    var x := r'.Rest()[|r.Rest()|..];
    assert r'.Rest() == r.Rest() + x;
  }
}
