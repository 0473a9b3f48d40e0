// The progressive AC decoder as an object (jdphuff.c): restart intervals, suspension and whole scans.
module ProgressiveDecoder {
  import opened Wrappers
  import opened Bits
  import opened HuffmanTable
  import opened DerivedTables
  import opened BitReader
  import opened BitWriter
  import opened Segments
  import opened AcBlocks
  import opened AcScan
  import opened AcReplay
  import opened AcDecoder
  import opened ZigzagOrder

  datatype Mcu = Completed | Waiting | Lost

  class PhuffDecoder {
    const h: Table
    const d: DDerived
    const p: Params
    const order: seq<nat>
    const restartInterval: nat

    /** bitstate with the source, saved.EOBRUN, and the restart counters. */
    var bits: Reader
    var eobRun: nat
    var restartsToGo: nat
    var nextRestartNum: nat

    ghost predicate Valid()
      reads this
    {
      && Decodes(h, d) && AcScan.Valid(p) && NaturalOrder(order) && restartInterval < 0x1_0000
      && bits.Valid() && restartsToGo < 0x1_0000_0000 && nextRestartNum < 8
    }

    /** start_pass_phuff_decoder */
    constructor (d: DDerived, p: Params, order: seq<nat>, restartInterval: nat, input: seq<byte>, ghost s: Script)
      requires Decodes(d.pub, d) && AcScan.Valid(p) && NaturalOrder(order) && restartInterval < 0x1_0000
      ensures Valid() && h == d.pub && this.d == d && this.p == p && this.order == order
      ensures this.restartInterval == restartInterval == restartsToGo && nextRestartNum == 0 && eobRun == 0
      ensures Begins(bits, input)
      ensures Coded(h, p, s, restartInterval) && input == ScanBytes(SegmentsOf(h, p, s.zss)) + ([0xFF, s.next] + s.after) ==> Stands(s, 0, 0)
    {
      h, this.d, this.p, this.order, this.restartInterval := d.pub, d, p, order, restartInterval;
      bits := Reader(input, 0, 0, 0, 0, false);
      eobRun, restartsToGo, nextRestartNum := 0, restartInterval, 0;
      new;
      Fresh(input);
      if Coded(h, p, s, restartInterval) && input == ScanBytes(SegmentsOf(h, p, s.zss)) + ([0xFF, s.next] + s.after) {
        AtStart(h, p, s, restartInterval, bits);
      }
    }

    /** The source has received more. */
    method Refill(more: seq<byte>)
      requires Valid()
      modifies this`bits
      ensures Valid() && bits == Refilled(old(bits), more)
    {
      bits := Refilled(bits, more);
    }

    /** process_restart */
    method Restart(ghost s: Script, ghost i: nat) returns (res: Segments.Restart)
      requires Valid()
      modifies this
      ensures Valid() && bits.input == old(bits.input)
      ensures res.Suspended? <==> old(bits.End()).None?
      ensures res.Resumed? <==> old(bits.End()).Some? && old(bits.End()).value.0 == RestartCode(old(nextRestartNum))
      ensures res.Resumed? ==> Begins(bits, old(bits.End()).value.1) && bits.unreadMarker == 0
      ensures res.Resumed? ==> eobRun == 0 && restartsToGo == restartInterval && nextRestartNum == (old(nextRestartNum) + 1) % 8
      ensures !res.Resumed? ==> eobRun == old(eobRun) && restartsToGo == old(restartsToGo) && nextRestartNum == old(nextRestartNum)
      ensures res.Suspended? ==> bits == old(bits).(bitsLeft := 0)
      ensures i + 1 < |s.zss| && old(Stands(s, i, |s.zss[i]|)) ==> res.Resumed? && Stands(s, i + 1, 0)
    {
      hide Legal, Lookahead, NaturalOrder, Destuff, MarkerIn, StubIn, Pow2, At, Reader.Rest, Reader.End;
      ghost var before, r0, run0 := i + 1 < |s.zss| && Stands(s, i, |s.zss[i]|), bits, eobRun;
      res, bits := ProcessRestart(bits, nextRestartNum);
      if before { AtNextSegment(h, p, s, restartInterval, i, r0, run0, bits); }
      if !res.Resumed? { return; }
      eobRun := 0;
      restartsToGo := restartInterval;
      nextRestartNum := (nextRestartNum + 1) % 8;
    }

    /** decode_mcu_AC_first and decode_mcu_AC_refine without the restart check: nothing is saved unless
        the MCU is complete. */
    method DecodeOne(block: array<int>, ghost s: Script, ghost i: nat, ghost j: nat) returns (ok: bool)
      requires Valid() && block.Length == 64
      modifies this, block
      ensures Valid() && nextRestartNum == old(nextRestartNum)
      ensures old(bits.insufficient) ==> ok && block[..] == old(block[..]) && bits == old(bits) && eobRun == old(eobRun)
      ensures !old(bits.insufficient) ==>
        Done(h, p, order, old(block[..]), block[..], old(bits), old(eobRun), ok, bits, eobRun)
      ensures !ok ==> bits == old(bits) && eobRun == old(eobRun) && restartsToGo == old(restartsToGo)
      ensures ok ==> restartsToGo == (old(restartsToGo) + 0xFFFF_FFFF) % 0x1_0000_0000
      ensures i < |s.zss| == |s.befores| && j < |s.zss[i]| == |s.befores[i]|
              && old(Stands(s, i, j)) && Zigzag(order, old(block[..])) == s.befores[i][j] ==>
        ok && Stands(s, i, j + 1) && Zigzag(order, block[..]) == Improve(s.befores[i][j], s.zss[i][j], p.ss, p.se, p.al)
    {
      hide Legal, Lookahead, NaturalOrder, DecodeBlock, Destuff, MarkerIn, StubIn, Pow2, SameFuture, Zigzag, At, Done, Improve;
      ok := true;
      ghost var before := i < |s.zss| == |s.befores| && j < |s.zss[i]| == |s.befores[i]|
        && Stands(s, i, j) && Zigzag(order, block[..]) == s.befores[i][j];
      ghost var was, r0, run0 := block[..], bits, eobRun;
      if before { AtPlace(h, p, s, restartInterval, i, j, bits, eobRun); }
      if !bits.insufficient {
        var rd, run;
        if p.kind.Refine? {
          ok, rd, run := RefineBlock(block, order, p, d, bits, eobRun);
        } else {
          ok, rd, run := FirstBlock(block, order, p, d, bits, eobRun);
        }
        if before { AtNextBlock(h, p, s, restartInterval, i, j, r0, run0, order, was, block[..], ok, rd, run); }
        DoneStops(h, p, order, was, block[..], r0, run0, ok, rd, run);
        if !ok { return; }
        bits, eobRun := rd, run;
      }
      restartsToGo := (restartsToGo + 0xFFFF_FFFF) % 0x1_0000_0000;
    }

    /** A restart is due that cannot be taken: its marker is not there, or another one is. */
    ghost predicate Stuck()
      requires bits.Valid()
      reads this
    {
      Due() && (bits.End().None? || bits.End().value.0 != RestartCode(nextRestartNum))
    }

    predicate Due()
      reads this
    {
      restartInterval > 0 && restartsToGo == 0
    }

    /** The decoder has had j blocks of segment i of a scan. */
    ghost predicate Stands(s: Script, i: nat, j: nat)
      reads this
    {
      && Valid() && At(h, p, s, restartInterval, i, j, bits, eobRun)
      && nextRestartNum == i % 8 && (restartInterval > 0 ==> restartsToGo == restartInterval - j)
    }

    /** decode_mcu_AC_first and decode_mcu_AC_refine.  `start` and `run` are what the block is decoded
        from: the saved state, or the state that a due restart leads to.  A decoder that stands in a
        scan decodes the next block of that scan. */
    method DecodeMcu(block: array<int>, ghost s: Script, ghost i: nat, ghost j: nat)
      returns (res: Mcu, ghost start: Reader, ghost run: nat)
      requires Valid() && block.Length == 64
      modifies this, block
      ensures Valid() && start.Valid()
      ensures res.Lost? <==> old(Stuck() && bits.End().Some?)
      ensures old(Stuck()) ==> !res.Completed? && block[..] == old(block[..])
      ensures !old(Due()) ==> start == old(bits) && run == old(eobRun)
      ensures old(Due() && !Stuck()) ==> Begins(start, old(bits.End()).value.1) && run == 0
      ensures !old(Stuck()) && start.insufficient ==> res.Completed? && block[..] == old(block[..])
      ensures !old(Stuck()) && !start.insufficient ==>
        Done(h, p, order, old(block[..]), block[..], start, run, res.Completed?, bits, eobRun)
      ensures res.Waiting? ==> bits == start && eobRun == run
      ensures old(Stuck()) && res.Waiting? ==> bits == old(bits).(bitsLeft := 0) && eobRun == old(eobRun)
      ensures nextRestartNum == if old(Due() && !Stuck()) then (old(nextRestartNum) + 1) % 8 else old(nextRestartNum)
      ensures var togo := if old(Due() && !Stuck()) then restartInterval else old(restartsToGo);
        restartsToGo == if res.Completed? then (togo + 0xFFFF_FFFF) % 0x1_0000_0000 else togo
      ensures old(Stands(s, i, j)) && Upcoming(s, i, j) && Zigzag(order, old(block[..])) == s.befores[Next(s, i, j).0][Next(s, i, j).1] ==>
        && var (i', j') := Next(s, i, j);
           res.Completed? && Stands(s, i', j' + 1)
           && Zigzag(order, block[..]) == Improve(s.befores[i'][j'], s.zss[i'][j'], p.ss, p.se, p.al)
    {
      hide Legal, Lookahead, NaturalOrder, Destuff, MarkerIn, StubIn, Pow2, Zigzag, Done, At, Improve;
      start, run := bits, eobRun;
      ghost var i', j' := if i < |s.zss| then Next(s, i, j).0 else i, if i < |s.zss| then Next(s, i, j).1 else j;
      if Stands(s, i, j) { AtPlace(h, p, s, restartInterval, i, j, bits, eobRun); }
      if restartInterval > 0 && restartsToGo == 0 {
        var r := Restart(s, i);
        if r.Suspended? { return Waiting, bits, eobRun; }
        if r.OutOfStep? { return Lost, bits, eobRun; }
      }
      start, run := bits, eobRun;
      var ok := DecodeOne(block, s, i', j');
      res := if ok then Completed else Waiting;
    }
  }

  /** The next block of a scan after j blocks of segment i. */
  ghost predicate Upcoming(s: Script, i: nat, j: nat) {
    && |s.zss| == |s.befores| && i < |s.zss|
    && var (i', j') := Next(s, i, j);
       i' < |s.zss| && j' < |s.zss[i']| == |s.befores[i']|
  }

  ghost function Next(s: Script, i: nat, j: nat): (nat, nat)
    requires i < |s.zss|
  {
    if j < |s.zss[i]| then (i, j) else (i + 1, 0)
  }

  // ---------- whole scans ----------

  /** A reader at the start of some input. */
  ghost predicate Begins(r: Reader, input: seq<byte>) {
    r.Valid() && r.Rest() == Destuff(input) && r.Future() == (MarkerIn(input), StubIn(input)) && !r.insufficient
  }

  /** A scan as the encoder saw it: the blocks of each segment and what the decoder already has of
      them, with the marker after the scan and the rest of the input. */
  datatype Script = Script(zss: seq<seq<Block>>, befores: seq<seq<Block>>, next: byte, after: seq<byte>)

  ghost predicate Coded(h: Table, p: Params, s: Script, restartInterval: nat)
    requires Legal(h) && AcScan.Valid(p)
  {
    && s.next != 0 && s.next != 0xFF && |s.zss| == |s.befores| > 0
    && (forall i :: 0 <= i < |s.zss| ==> AllReady(p, s.befores[i], s.zss[i]) && Flush(h, EncodeScan(h, p, s.zss[i])).ok)
    && (if restartInterval == 0 then |s.zss| == 1 else |s.zss[|s.zss| - 1]| <= restartInterval)
    && forall i :: 0 <= i < |s.zss| - 1 ==> |s.zss[i]| == restartInterval
  }

  ghost function Padded(h: Table, p: Params, zs: seq<Block>): seq<bool>
    requires Legal(h) && AcScan.Valid(p)
  {
    Segment(h, p, zs) + Pad(Segment(h, p, zs))
  }

  /** The reader and the EOB run are those of a decoder that has had j blocks of segment i. */
  ghost predicate At(h: Table, p: Params, s: Script, restartInterval: nat, i: nat, j: nat, r: Reader, run: nat)
    requires Legal(h) && AcScan.Valid(p)
  {
    && Coded(h, p, s, restartInterval) && i < |s.zss| && j <= |s.zss[i]|
    && r.Valid() && !r.insufficient && r.End() == Some(EndOf(SegmentsOf(h, p, s.zss), i, s.next, s.after))
    && var d := DecodeScan(h, p, s.befores[i][..j], Padded(h, p, s.zss[i]));
       d.Some? && d.value.1 == r.Rest() && d.value.2 == run
  }

  lemma AtPlace(h: Table, p: Params, s: Script, restartInterval: nat, i: nat, j: nat, r: Reader, run: nat)
    requires Legal(h) && AcScan.Valid(p) && At(h, p, s, restartInterval, i, j, r, run)
    ensures !r.insufficient && i < |s.zss| == |s.befores| && j <= |s.zss[i]| == |s.befores[i]|
    ensures restartInterval > 0 ==> |s.zss[i]| <= restartInterval && (i + 1 < |s.zss| ==> |s.zss[i]| == restartInterval)
    ensures restartInterval == 0 ==> i + 1 == |s.zss|
  {
    hide Legal, DecodeScan, Padded, EndOf;
  }

  lemma DoneStops(h: Table, p: Params, order: seq<nat>, was: seq<int>, now: seq<int>, rd0: Reader, run0: nat,
                  ok: bool, rd: Reader, run: nat)
    requires Legal(h) && AcScan.Valid(p) && NaturalOrder(order) && |was| == |now| == 64 && rd0.Valid()
    requires Done(h, p, order, was, now, rd0, run0, ok, rd, run)
    ensures ok ==> rd.Valid()
    ensures !ok ==> Done(h, p, order, was, now, rd0, run0, ok, rd0, run0)
  {
    hide Legal, DecodeBlock, SameFuture, NaturalOrder, Zigzag;
  }

  /** The bytes that the encoder makes of a scan put the decoder at its start. */
  lemma AtStart(h: Table, p: Params, s: Script, restartInterval: nat, r: Reader)
    requires Legal(h) && AcScan.Valid(p) && Coded(h, p, s, restartInterval)
    requires Begins(r, ScanBytes(SegmentsOf(h, p, s.zss)) + ([0xFF, s.next] + s.after))
    ensures At(h, p, s, restartInterval, 0, 0, r, 0)
  {
    hide Legal, Destuff, MarkerIn, StubIn, EncodeScan, Flush, ScanBytes, From, Pow2, Bin, Bytes, Pad;
    var segs := SegmentsOf(h, p, s.zss);
    ScanFrom(segs, [0xFF, s.next] + s.after);
    FromReads(segs, 0, s.next, s.after);
  }

  /** At the end of a segment the marker is the one the decoder expects, and passing it leads to the next. */
  lemma AtNextSegment(h: Table, p: Params, s: Script, restartInterval: nat, i: nat, r: Reader, run: nat, r': Reader)
    requires Legal(h) && AcScan.Valid(p) && i + 1 < |s.zss| && At(h, p, s, restartInterval, i, |s.zss[i]|, r, run)
    ensures r.End().Some? && r.End().value.0 == RestartCode(i)
    ensures Begins(r', r.End().value.1) ==> At(h, p, s, restartInterval, i + 1, 0, r', 0)
  {
    hide Legal, Destuff, MarkerIn, StubIn, EncodeScan, Flush, ScanBytes, From, Pow2, Bin, Bytes, Pad;
    FromReads(SegmentsOf(h, p, s.zss), i + 1, s.next, s.after);
  }

  /** Decoding the next block completes, improves it as the encoder meant, and leads to the place after it. */
  lemma AtNextBlock(h: Table, p: Params, s: Script, restartInterval: nat, i: nat, j: nat, r: Reader, run: nat,
                    order: seq<nat>, was: seq<int>, now: seq<int>, ok: bool, r': Reader, run': nat)
    requires Legal(h) && AcScan.Valid(p) && At(h, p, s, restartInterval, i, j, r, run) && j < |s.zss[i]|
    requires NaturalOrder(order) && |was| == |now| == 64 && Done(h, p, order, was, now, r, run, ok, r', run')
    requires DecodeBlock(h, p, Zigzag(order, was), r.Rest(), run) == DecodeBlock(h, p, s.befores[i][j], r.Rest(), run)
    ensures ok && Zigzag(order, now) == Improve(s.befores[i][j], s.zss[i][j], p.ss, p.se, p.al)
    ensures At(h, p, s, restartInterval, i, j + 1, r', run')
  {
    hide Legal, Destuff, MarkerIn, StubIn, EncodeScan, Flush, Pow2, Bin, Bytes, Pad, DecodeBlock, DecodeScan, Improve, Zigzag, Segment, EndOf;
    NextInSegment(h, p, s.zss[i], s.befores[i], Pad(Segment(h, p, s.zss[i])), j);
  }

  lemma Fresh(input: seq<byte>)
    ensures Begins(Reader(input, 0, 0, 0, 0, false), input)
  {
    hide Destuff, MarkerIn, StubIn;
    assert input[0..] == input && [] + Destuff(input) == Destuff(input);
  }

  // ---------- suspension ----------

  /** More input does not change a unit that is already complete. */
  lemma {:induction false} AfterFFMore(s: seq<byte>, more: seq<byte>, i: nat)
    requires 1 <= i <= |s| && !AfterFF(s, i).Starved?
    ensures AfterFF(s + more, i) == AfterFF(s, i)
    decreases |s| - i
  {
    if i < |s| && s[i] == 0xFF { AfterFFMore(s, more, i + 1); }
  }

  lemma {:induction false} DestuffMore(s: seq<byte>, more: seq<byte>)
    requires MarkerIn(s) == None
    ensures Destuff(s) <= Destuff(s + more)
    decreases |s|
  {
    var u := NextUnit(s);
    if !u.Starved? {
      if s[0] == 0xFF { AfterFFMore(s, more, 1); }
      assert (s + more)[u.used..] == s[u.used..] + more;
      DestuffMore(s[u.used..], more);
    }
  }

  /** The same state in front of a source that has received more. */
  function Refilled(r: Reader, more: seq<byte>): Reader {
    r.(input := r.input + more)
  }

  lemma RefilledReads(r: Reader, more: seq<byte>)
    requires r.Valid() && r.End() == None
    ensures Refilled(r, more).Valid() && r.Rest() <= Refilled(r, more).Rest()
  {
    hide Destuff, MarkerIn, StubIn, Bin;
    var s := r.input[r.pos..];
    assert Refilled(r, more).input[r.pos..] == s + more;
    DestuffMore(s, more);
    assert r.Held() + Destuff(s) <= r.Held() + Destuff(s + more);
  }

  /** Suspension is invisible: whatever has been done to the block so far, decoding it from the saved
      state with more input is the same as decoding the original block with that input. */
  lemma RetryDecodes(h: Table, p: Params, order: seq<nat>, was: seq<int>, now: seq<int>, r: Reader, run: nat, more: seq<byte>)
    requires Legal(h) && AcScan.Valid(p) && NaturalOrder(order) && |was| == |now| == 64 && r.Valid()
    requires Stopped(h, p, order, was, now, r, run)
    ensures var r' := Refilled(r, more);
      r'.Valid() && DecodeBlock(h, p, Zigzag(order, now), r'.Rest(), run) == DecodeBlock(h, p, Zigzag(order, was), r'.Rest(), run)
  {
    hide Legal, NaturalOrder, Zigzag, DecodeBlock, Destuff, MarkerIn, StubIn, Bin, Reader.Rest, Reader.End, Reader.Future;
    RefilledReads(r, more);
    var r' := Refilled(r, more);
    var x := r'.Rest()[|r.Rest()|..];
    assert r'.Rest() == r.Rest() + x;
  }

  /** So a retry that completes leaves what an uninterrupted try leaves ... */
  lemma SuspensionInvisible(h: Table, p: Params, order: seq<nat>, was: seq<int>, now: seq<int>, r: Reader, run: nat, more: seq<byte>,
                            retried: seq<int>, r1: Reader, run1: nat, direct: seq<int>, r2: Reader, run2: nat)
    requires Legal(h) && AcScan.Valid(p) && NaturalOrder(order) && |was| == |now| == |retried| == |direct| == 64 && r.Valid()
    requires Done(h, p, order, was, now, r, run, false, r, run) && Refilled(r, more).Valid()
    requires Done(h, p, order, now, retried, Refilled(r, more), run, true, r1, run1)
    requires Done(h, p, order, was, direct, Refilled(r, more), run, true, r2, run2)
    requires DecodeBlock(h, p, Zigzag(order, was), Refilled(r, more).Rest(), run).Some?
    ensures Zigzag(order, retried) == Zigzag(order, direct) && run1 == run2
    ensures r1.Valid() && r2.Valid() && r1.Rest() == r2.Rest() && r1.End() == r2.End()
  {
    hide Legal, NaturalOrder, Zigzag, DecodeBlock, Destuff, MarkerIn, StubIn, Bin, Reader.Rest, Reader.End, Reader.Future, SameFuture;
    RetryDecodes(h, p, order, was, now, r, run, more);
  }

  /** ... and one that is suspended again may be retried again. */
  lemma SuspendedAgain(h: Table, p: Params, order: seq<nat>, was: seq<int>, now: seq<int>, r: Reader, run: nat, more: seq<byte>, later: seq<int>)
    requires Legal(h) && AcScan.Valid(p) && NaturalOrder(order) && |was| == |now| == |later| == 64 && r.Valid()
    requires Stopped(h, p, order, was, now, r, run) && Refilled(r, more).Valid()
    requires Stopped(h, p, order, now, later, Refilled(r, more), run)
    ensures Stopped(h, p, order, was, later, Refilled(r, more), run)
  {
    hide Legal, NaturalOrder, Zigzag, DecodeBlock, Destuff, MarkerIn, StubIn, Bin, Reader.Rest, Reader.End, Reader.Future;
    RefilledReads(r, more);
    var r' := Refilled(r, more);
    var y := r'.Rest()[|r.Rest()|..];
    assert r'.Rest() == r.Rest() + y;
    forall x: seq<bool>
      ensures DecodeBlock(h, p, Zigzag(order, later), r'.Rest() + x, run) == DecodeBlock(h, p, Zigzag(order, was), r'.Rest() + x, run)
    {
      assert r'.Rest() + x == r.Rest() + (y + x);
    }
  }
}
