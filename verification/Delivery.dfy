// A coded AC scan that arrives in pieces: the consumer calls decode_mcu for every block, as consume_data in
// jdcoefct.c does, and calls again with more input whenever the decoder has been suspended.
module Delivery {
  import opened Wrappers
  import opened Bits
  import opened HuffmanTable
  import opened DerivedTables
  import opened BitReader
  import opened BitWriter
  import opened Segments
  import opened AcBlocks
  import opened AcScan
  import opened AcDecoder
  import opened MoreBits
  import opened ProgressiveDecoder
  import opened Sequences
  import opened ZigzagOrder

  // ---------- a reader whose input has not arrived completely ----------

  /** The data bits, the marker and the incomplete unit of an input in two parts. */
  lemma {:induction false} InputMore(s: seq<byte>, more: seq<byte>)
    ensures MarkerIn(s).Some? ==>
      Destuff(s + more) == Destuff(s) && MarkerIn(s + more) == Some((MarkerIn(s).value.0, MarkerIn(s).value.1 + more)) && StubIn(s + more) == []
    ensures MarkerIn(s).Some? ==> StubIn(s) == []
    ensures MarkerIn(s).None? ==>
      var x := StubIn(s) + more;
      Destuff(s + more) == Destuff(s) + Destuff(x) && MarkerIn(s + more) == MarkerIn(x) && StubIn(s + more) == StubIn(x)
    decreases |s|
  {
    hide Bin;
    var u := NextUnit(s);
    if u.Starved? {
      assert [] + Destuff(s + more) == Destuff(s + more);
    } else {
      if s[0] == 0xFF { AfterFFMore(s, more, 1); }
      assert NextUnit(s + more) == u;
      assert (s + more)[u.used..] == s[u.used..] + more;
      if u.Data? {
        InputMore(s[u.used..], more);
        if MarkerIn(s).None? {
          var x := StubIn(s) + more;
          assert Bin(u.value, 8) + (Destuff(s[u.used..]) + Destuff(x)) == Bin(u.value, 8) + Destuff(s[u.used..]) + Destuff(x);
        }
      }
    }
  }

  /** What the bytes still to come add to the bits at hand, and what the reader comes to in the end. */
  ghost function Added(f: (Option<(byte, seq<byte>)>, seq<byte>), more: seq<byte>): seq<bool> {
    if f.0.Some? then [] else Destuff(f.1 + more)
  }

  ghost function WithMore(f: (Option<(byte, seq<byte>)>, seq<byte>), more: seq<byte>): (Option<(byte, seq<byte>)>, seq<byte>) {
    if f.0.Some? then (Some((f.0.value.0, f.0.value.1 + more)), []) else (MarkerIn(f.1 + more), StubIn(f.1 + more))
  }

  lemma RefilledIs(r: Reader, more: seq<byte>)
    requires r.Valid()
    ensures Refilled(r, more).Valid() && Refilled(r, more).Rest() == r.Rest() + Added(r.Future(), more)
    ensures Refilled(r, more).Future() == WithMore(r.Future(), more)
  {
    hide Destuff, MarkerIn, StubIn, Bin;
    var s := r.input[r.pos..];
    assert Refilled(r, more).input[r.pos..] == s + more;
    InputMore(s, more);
    assert r.Rest() + [] == r.Rest();
    if r.unreadMarker == 0 && MarkerIn(s).None? {
      var d := Destuff(StubIn(s) + more);
      assert r.Held() + (Destuff(s) + d) == r.Held() + Destuff(s) + d;
    }
  }

  /** What a try does with the input at hand is what it would do with all of it: it either completes the same
      block, or leaves one that decodes to the same. */
  lemma DoneWithMore(h: Table, p: Params, order: seq<nat>, was: seq<int>, now: seq<int>, r: Reader, run: nat,
                     ok: bool, r': Reader, run': nat, more: seq<byte>)
    requires Legal(h) && AcScan.Valid(p) && NaturalOrder(order) && |was| == |now| == 64 && r.Valid() && Refilled(r, more).Valid()
    requires Done(h, p, order, was, now, r, run, ok, r', run')
    requires DecodeBlock(h, p, Zigzag(order, was), Refilled(r, more).Rest(), run).Some?
    ensures ok ==> r'.Valid() && Done(h, p, order, was, now, Refilled(r, more), run, true, Refilled(r', more), run')
    ensures !ok ==>
      && r.End().None?
      && DecodeBlock(h, p, Zigzag(order, now), Refilled(r, more).Rest(), run) == DecodeBlock(h, p, Zigzag(order, was), Refilled(r, more).Rest(), run)
  {
    hide Legal, NaturalOrder, Zigzag, DecodeBlock, Destuff, MarkerIn, StubIn, Bin, Reader.Rest, Added, WithMore;
    RefilledIs(r, more);
    if ok {
      RefilledIs(r', more);
      var z := Zigzag(order, was);
      var x := Added(r.Future(), more);
      AddedNone(r, more);
      var m := DecodeBlock(h, p, z, r.Rest(), run);
      if m.Some? { BlockMore(h, p, z, r.Rest(), run, x); }
    }
  }

  lemma AddedNone(r: Reader, more: seq<byte>)
    requires r.Valid()
    ensures r.End().Some? ==> r.Rest() + Added(r.Future(), more) == r.Rest()
  {
  }

  // ---------- where the decoder stands ----------

  /** The decoder has had j blocks of segment i; at the end of a segment the padding may have been dropped. */
  ghost predicate Standing(h: Table, p: Params, s: Script, restartInterval: nat, i: nat, j: nat, r: Reader, run: nat)
    requires Legal(h) && AcScan.Valid(p)
  {
    if i < |s.zss| && j == |s.zss[i]| then
      Coded(h, p, s, restartInterval) && r.Valid() && !r.insufficient && r.End() == Some(EndOf(SegmentsOf(h, p, s.zss), i, s.next, s.after))
    else
      At(h, p, s, restartInterval, i, j, r, run)
  }

  lemma AtStanding(h: Table, p: Params, s: Script, restartInterval: nat, i: nat, j: nat, r: Reader, run: nat)
    requires Legal(h) && AcScan.Valid(p) && At(h, p, s, restartInterval, i, j, r, run)
    ensures Standing(h, p, s, restartInterval, i, j, r, run)
  {
    hide Legal, DecodeScan, Padded, EndOf;
  }

  lemma AtFacts(h: Table, p: Params, s: Script, restartInterval: nat, i: nat, j: nat, r: Reader, run: nat)
    requires Legal(h) && AcScan.Valid(p) && At(h, p, s, restartInterval, i, j, r, run)
    ensures Coded(h, p, s, restartInterval) && r.Valid() && r.End().Some? && i < |s.zss| && j <= |s.zss[i]|
  {
    hide Legal, Coded, DecodeScan, Padded, EndOf, Segment;
  }

  lemma CodedSizes(h: Table, p: Params, s: Script, restartInterval: nat, i: nat)
    requires Legal(h) && AcScan.Valid(p) && Coded(h, p, s, restartInterval) && i < |s.zss|
    ensures |s.zss| == |s.befores| && |s.zss[i]| == |s.befores[i]|
    ensures restartInterval > 0 ==> |s.zss[i]| <= restartInterval && (i + 1 < |s.zss| ==> |s.zss[i]| == restartInterval)
    ensures restartInterval == 0 ==> i + 1 == |s.zss|
  {
    hide Legal, EncodeScan, Flush, Ready;
  }

  lemma StandingPlace(h: Table, p: Params, s: Script, restartInterval: nat, i: nat, j: nat, r: Reader, run: nat)
    requires Legal(h) && AcScan.Valid(p) && Standing(h, p, s, restartInterval, i, j, r, run)
    ensures Coded(h, p, s, restartInterval) && r.Valid() && !r.insufficient && r.End().Some? && i < |s.zss| == |s.befores| && j <= |s.zss[i]| == |s.befores[i]|
    ensures restartInterval > 0 ==> |s.zss[i]| <= restartInterval && (i + 1 < |s.zss| ==> |s.zss[i]| == restartInterval)
    ensures restartInterval == 0 ==> i + 1 == |s.zss|
  {
    hide Legal, At, Coded, EndOf, SegmentsOf;
    if !(i < |s.zss| && j == |s.zss[i]|) {
      AtFacts(h, p, s, restartInterval, i, j, r, run);
      AtPlace(h, p, s, restartInterval, i, j, r, run);
    }
    CodedSizes(h, p, s, restartInterval, i);
  }

  /** All the input there is. */
  lemma NothingMore(r: Reader)
    ensures Refilled(r, []) == r
  {
    assert r.input + [] == r.input;
  }

  /** One try inside a segment. */
  lemma StepInside(h: Table, p: Params, s: Script, restartInterval: nat, i: nat, j: nat, order: seq<nat>, was: seq<int>, now: seq<int>,
                   r: Reader, run: nat, ok: bool, r': Reader, run': nat, future: seq<byte>)
    requires Legal(h) && AcScan.Valid(p) && NaturalOrder(order) && |was| == |now| == 64 && r.Valid()
    requires Standing(h, p, s, restartInterval, i, j, Refilled(r, future), run) && i < |s.zss| == |s.befores| && j < |s.zss[i]| == |s.befores[i]|
    requires Done(h, p, order, was, now, r, run, ok, r', run')
    requires DecodeBlock(h, p, Zigzag(order, was), Refilled(r, future).Rest(), run) == DecodeBlock(h, p, s.befores[i][j], Refilled(r, future).Rest(), run)
    ensures ok ==> Standing(h, p, s, restartInterval, i, j + 1, Refilled(r', future), run')
    ensures ok ==> Zigzag(order, now) == Improve(s.befores[i][j], s.zss[i][j], p.ss, p.se, p.al)
    ensures !ok ==> future != []
    ensures !ok ==> DecodeBlock(h, p, Zigzag(order, now), Refilled(r, future).Rest(), run) == DecodeBlock(h, p, s.befores[i][j], Refilled(r, future).Rest(), run)
  {
    hide Legal, NaturalOrder, Zigzag, DecodeBlock, Destuff, MarkerIn, StubIn, Bin, Reader.Rest, Reader.End, Reader.Future, Done, At, Improve;
    var v := Refilled(r, future);
    NextDecodes(h, p, s, restartInterval, i, j, v, run);
    DoneWithMore(h, p, order, was, now, r, run, ok, r', run', future);
    if ok {
      AtNextBlock(h, p, s, restartInterval, i, j, v, run, order, was, now, true, Refilled(r', future), run');
      AtStanding(h, p, s, restartInterval, i, j + 1, Refilled(r', future), run');
    } else {
      StandingPlace(h, p, s, restartInterval, i, j, v, run);
      NothingMore(r);
    }
  }

  lemma NextDecodes(h: Table, p: Params, s: Script, restartInterval: nat, i: nat, j: nat, r: Reader, run: nat)
    requires Legal(h) && AcScan.Valid(p) && At(h, p, s, restartInterval, i, j, r, run) && i < |s.zss| == |s.befores| && j < |s.zss[i]| == |s.befores[i]|
    ensures DecodeBlock(h, p, s.befores[i][j], r.Rest(), run).Some?
  {
    hide Legal, Destuff, MarkerIn, StubIn, EncodeScan, Flush, Bin, Bytes, Pad, DecodeBlock, DecodeScan, Segment, EndOf;
    NextInSegment(h, p, s.zss[i], s.befores[i], Pad(Segment(h, p, s.zss[i])), j);
  }

  /** At the end of a segment: either its restart marker has not arrived, or it is the one expected. */
  lemma StepOver(h: Table, p: Params, s: Script, restartInterval: nat, i: nat, r: Reader, run: nat, future: seq<byte>)
    requires Legal(h) && AcScan.Valid(p) && i + 1 < |s.zss| && r.Valid()
    requires Standing(h, p, s, restartInterval, i, |s.zss[i]|, Refilled(r, future), run)
    ensures r.End().Some? ==> r.End().value.0 == RestartCode(i)
    ensures r.End().None? ==> future != [] && Standing(h, p, s, restartInterval, i, |s.zss[i]|, Refilled(r.(bitsLeft := 0), future), run)
  {
    hide Legal, Destuff, MarkerIn, StubIn, EncodeScan, Flush, From, Pow2, Bin, Bytes, Pad, Segment;
    RefilledIs(r, future);
    NothingMore(r);
  }

  lemma StepNext(h: Table, p: Params, s: Script, restartInterval: nat, i: nat, r: Reader, run: nat, r': Reader, future: seq<byte>)
    requires Legal(h) && AcScan.Valid(p) && i + 1 < |s.zss| && r.Valid() && r.End().Some? && Begins(r', r.End().value.1)
    requires Standing(h, p, s, restartInterval, i, |s.zss[i]|, Refilled(r, future), run)
    ensures At(h, p, s, restartInterval, i + 1, 0, Refilled(r', future), 0)
  {
    hide Legal, EncodeScan, Flush, From, Pow2, Bin, Bytes, Pad, NextUnit, Reader.Rest;
    RefilledIs(r, future);
    RefilledIs(r', future);
    InputMore(r.End().value.1, future);
    FromReads(SegmentsOf(h, p, s.zss), i + 1, s.next, s.after);
    BeginsMore(r', r.End().value.1, future);
  }

  lemma BeginsMore(r: Reader, input: seq<byte>, future: seq<byte>)
    requires Begins(r, input)
    ensures Begins(Refilled(r, future), input + future)
  {
    hide Destuff, MarkerIn, StubIn, Reader.Rest;
    RefilledIs(r, future);
    InputMore(input, future);
    assert Destuff(input) + [] == Destuff(input);
  }

  // ---------- one call ----------

  /** What the decoder saves between calls. */
  datatype Saved = Saved(bits: Reader, run: nat, togo: nat, next: nat)

  /** The decoder has had j blocks of segment i, and the bytes `future` have not arrived. */
  ghost predicate Waits(h: Table, p: Params, s: Script, restartInterval: nat, i: nat, j: nat, v: Saved, future: seq<byte>)
    requires Legal(h) && AcScan.Valid(p)
  {
    && v.bits.Valid() && Standing(h, p, s, restartInterval, i, j, Refilled(v.bits, future), v.run)
    && v.next == i % 8 && (restartInterval > 0 ==> v.togo == restartInterval - j)
  }

  /** The next block decodes to what the encoder meant, whether or not it has been begun. */
  ghost predicate Pending(h: Table, p: Params, order: seq<nat>, s: Script, i: nat, j: nat, v: Saved, future: seq<byte>, block: seq<int>)
    requires Legal(h) && AcScan.Valid(p) && NaturalOrder(order) && |block| == 64 && Upcoming(s, i, j)
  {
    if j < |s.zss[i]| then
      Refilled(v.bits, future).Valid()
      && DecodeBlock(h, p, Zigzag(order, block), Refilled(v.bits, future).Rest(), v.run)
         == DecodeBlock(h, p, s.befores[i][j], Refilled(v.bits, future).Rest(), v.run)
    else
      Zigzag(order, block) == s.befores[i + 1][0]
  }

  ghost predicate Due(restartInterval: nat, v: Saved) { restartInterval > 0 && v.togo == 0 }

  /** A restart is due and its marker has not arrived. */
  ghost predicate Early(restartInterval: nat, v: Saved)
    requires v.bits.Valid()
  {
    Due(restartInterval, v) && v.bits.End().None?
  }

  /** What DecodeMcu does to the saved state, unless it is out of step. */
  ghost predicate Called(h: Table, p: Params, order: seq<nat>, restartInterval: nat, was: seq<int>, now: seq<int>, v0: Saved, done: bool,
                         start: Reader, run: nat, v1: Saved)
    requires Legal(h) && AcScan.Valid(p) && NaturalOrder(order) && |was| == |now| == 64 && v0.bits.Valid() && start.Valid()
  {
    if Early(restartInterval, v0) then
      !done && now == was && v1 == v0.(bits := v0.bits.(bitsLeft := 0))
    else
      && (if Due(restartInterval, v0) then Begins(start, v0.bits.End().value.1) && run == 0 else start == v0.bits && run == v0.run)
      && (!start.insufficient ==> Done(h, p, order, was, now, start, run, done, v1.bits, v1.run))
      && (!done ==> v1.bits == start && v1.run == run)
      && v1.next == (if Due(restartInterval, v0) then (v0.next + 1) % 8 else v0.next)
      && var togo := if Due(restartInterval, v0) then restartInterval else v0.togo;
         v1.togo == if done then (togo + 0xFFFF_FFFF) % 0x1_0000_0000 else togo
  }

  /** In a scan the restart marker is the one expected, so the decoder never is out of step. */
  lemma NotLost(h: Table, p: Params, s: Script, restartInterval: nat, i: nat, j: nat, v: Saved, future: seq<byte>)
    requires Legal(h) && AcScan.Valid(p) && Waits(h, p, s, restartInterval, i, j, v, future) && Upcoming(s, i, j)
    ensures Due(restartInterval, v) <==> j == |s.zss[i]|
    ensures Due(restartInterval, v) && v.bits.End().Some? ==> v.bits.End().value.0 == RestartCode(v.next)
  {
    hide Legal, Coded, Standing, Reader.End, Refilled, EndOf;
    StandingPlace(h, p, s, restartInterval, i, j, Refilled(v.bits, future), v.run);
    if Due(restartInterval, v) { StepOver(h, p, s, restartInterval, i, v.bits, v.run, future); }
  }

  /** The marker is late. */
  lemma TryEarly(h: Table, p: Params, order: seq<nat>, s: Script, restartInterval: nat, i: nat, j: nat, v: Saved, future: seq<byte>, block: seq<int>, v': Saved)
    requires Legal(h) && AcScan.Valid(p) && NaturalOrder(order) && |block| == 64 && Waits(h, p, s, restartInterval, i, j, v, future) && Upcoming(s, i, j)
    requires Pending(h, p, order, s, i, j, v, future, block) && Early(restartInterval, v) && v' == v.(bits := v.bits.(bitsLeft := 0))
    ensures future != [] && Waits(h, p, s, restartInterval, i, j, v', future) && Pending(h, p, order, s, i, j, v', future, block)
  {
    hide Legal, Coded, NaturalOrder, Zigzag, DecodeBlock, Standing, Reader.Rest, Reader.End;
    NotLost(h, p, s, restartInterval, i, j, v, future);
    StepOver(h, p, s, restartInterval, i, v.bits, v.run, future);
  }

  lemma NextFixed(s: Script, i: nat, j: nat)
    requires Upcoming(s, i, j)
    ensures var (i', j') := Next(s, i, j);
      && i' < |s.zss| == |s.befores| && j' < |s.zss[i']| == |s.befores[i']| && Upcoming(s, i', j') && Next(s, i', j') == (i', j')
  {
  }

  /** Where the call starts with the next block. */
  lemma TryStart(h: Table, p: Params, order: seq<nat>, s: Script, restartInterval: nat, i: nat, j: nat, v: Saved, future: seq<byte>,
                 was: seq<int>, start: Reader, run: nat)
    requires Legal(h) && AcScan.Valid(p) && NaturalOrder(order) && |was| == 64 && start.Valid()
    requires Waits(h, p, s, restartInterval, i, j, v, future) && Upcoming(s, i, j) && Pending(h, p, order, s, i, j, v, future, was)
    requires !Early(restartInterval, v)
    requires if Due(restartInterval, v) then Begins(start, v.bits.End().value.1) && run == 0 else start == v.bits && run == v.run
    ensures var (i', j') := Next(s, i, j);
      && Standing(h, p, s, restartInterval, i', j', Refilled(start, future), run) && !start.insufficient && Refilled(start, future).Valid()
      && DecodeBlock(h, p, Zigzag(order, was), Refilled(start, future).Rest(), run) == DecodeBlock(h, p, s.befores[i'][j'], Refilled(start, future).Rest(), run)
      && (restartInterval > 0 ==> |s.zss[i']| <= restartInterval) && (i', j') == (if Due(restartInterval, v) then (i + 1, 0) else (i, j))
  {
    hide Legal, Coded, NaturalOrder, Zigzag, DecodeBlock, Standing, Reader.Rest, Reader.End, Begins, At;
    var (i', j') := Next(s, i, j);
    NotLost(h, p, s, restartInterval, i, j, v, future);
    StandingPlace(h, p, s, restartInterval, i, j, Refilled(v.bits, future), v.run);
    if j == |s.zss[i]| {
      StepNext(h, p, s, restartInterval, i, v.bits, v.run, start, future);
      AtStanding(h, p, s, restartInterval, i', 0, Refilled(start, future), 0);
    }
    StandingPlace(h, p, s, restartInterval, i', j', Refilled(start, future), run);
  }

  /** The call comes to the next block. */
  lemma TryStep(h: Table, p: Params, order: seq<nat>, s: Script, restartInterval: nat, i: nat, j: nat, v0: Saved, future: seq<byte>,
                was: seq<int>, now: seq<int>, done: bool, start: Reader, run: nat, v1: Saved)
    requires Legal(h) && AcScan.Valid(p) && NaturalOrder(order) && |was| == |now| == 64 && restartInterval < 0x1_0000 && start.Valid()
    requires Waits(h, p, s, restartInterval, i, j, v0, future) && Upcoming(s, i, j) && Pending(h, p, order, s, i, j, v0, future, was)
    requires !Early(restartInterval, v0) && Called(h, p, order, restartInterval, was, now, v0, done, start, run, v1)
    ensures var (i', j') := Next(s, i, j);
      && (done ==> Waits(h, p, s, restartInterval, i', j' + 1, v1, future))
      && (done ==> Zigzag(order, now) == Improve(s.befores[i'][j'], s.zss[i'][j'], p.ss, p.se, p.al))
      && (!done ==> future != [] && Upcoming(s, i', j') && Next(s, i', j') == (i', j'))
      && (!done ==> Waits(h, p, s, restartInterval, i', j', v1, future) && Pending(h, p, order, s, i', j', v1, future, now))
  {
    hide Legal, Coded, NaturalOrder, Zigzag, DecodeBlock, Standing, Reader.Rest, Reader.End, Done, Begins, Improve, At, Refilled, Next;
    var (i', j') := Next(s, i, j);
    NextFixed(s, i, j);
    TryStart(h, p, order, s, restartInterval, i, j, v0, future, was, start, run);
    DoneStops(h, p, order, was, now, start, run, done, v1.bits, v1.run);
    StepInside(h, p, s, restartInterval, i', j', order, was, now, start, run, done, v1.bits, v1.run, future);
  }

  // ---------- the consumer ----------

  ghost function SavedOf(d: PhuffDecoder): Saved
    reads d
  {
    Saved(d.bits, d.eobRun, d.restartsToGo, d.nextRestartNum)
  }

  ghost predicate Awaits(d: PhuffDecoder, s: Script, i: nat, j: nat, future: seq<byte>)
    reads d
  {
    d.Valid() && Waits(d.h, d.p, s, d.restartInterval, i, j, SavedOf(d), future)
  }

  /** One call of decode_mcu: it completes the next block, or more input is needed and still to come. */
  method Try(d: PhuffDecoder, block: array<int>, ghost s: Script, ghost i: nat, ghost j: nat, ghost future: seq<byte>)
    returns (done: bool, ghost i': nat, ghost j': nat)
    requires block.Length == 64 && Awaits(d, s, i, j, future) && Upcoming(s, i, j)
    requires Pending(d.h, d.p, d.order, s, i, j, SavedOf(d), future, block[..])
    modifies d, block
    ensures done ==> (i', j') == Next(s, i, j) && Awaits(d, s, i', j' + 1, future)
    ensures done ==> Zigzag(d.order, block[..]) == Improve(s.befores[i'][j'], s.zss[i'][j'], d.p.ss, d.p.se, d.p.al)
    ensures !done ==> future != [] && Upcoming(s, i', j') && Next(s, i', j') == Next(s, i, j) && Awaits(d, s, i', j', future)
    ensures !done ==> Pending(d.h, d.p, d.order, s, i', j', SavedOf(d), future, block[..])
  {
    hide Legal, Lookahead, NaturalOrder, Zigzag, Done, At, Standing, Improve, Begins, Waits, Pending, Reader.Rest, Reader.End, PhuffDecoder.Stands;
    ghost var was, v := block[..], SavedOf(d);
    WaitsReader(d.h, d.p, s, d.restartInterval, i, j, v, future);
    NotLost(d.h, d.p, s, d.restartInterval, i, j, v, future);
    var res;
    ghost var start, run;
    res, start, run := d.DecodeMcu(block, s, i, j);
    done := res.Completed?;
    assert Called(d.h, d.p, d.order, d.restartInterval, was, block[..], v, done, start, run, SavedOf(d));
    if Early(d.restartInterval, v) {
      i', j' := i, j;
      TryEarly(d.h, d.p, d.order, s, d.restartInterval, i, j, v, future, was, SavedOf(d));
    } else {
      i', j' := Next(s, i, j).0, Next(s, i, j).1;
      TryStep(d.h, d.p, d.order, s, d.restartInterval, i, j, v, future, was, block[..], done, start, run, SavedOf(d));
    }
  }

  lemma WaitsReader(h: Table, p: Params, s: Script, restartInterval: nat, i: nat, j: nat, v: Saved, future: seq<byte>)
    requires Legal(h) && AcScan.Valid(p) && Waits(h, p, s, restartInterval, i, j, v, future)
    ensures v.bits.Valid() && v.next < 8
  {
    hide Legal, Standing;
  }

  lemma RefillWaits(h: Table, p: Params, order: seq<nat>, s: Script, restartInterval: nat, i: nat, j: nat, v: Saved, chunk: seq<byte>, rest: seq<byte>, block: seq<int>)
    requires Legal(h) && AcScan.Valid(p) && NaturalOrder(order) && |block| == 64 && Upcoming(s, i, j)
    requires Waits(h, p, s, restartInterval, i, j, v, chunk + rest) && Pending(h, p, order, s, i, j, v, chunk + rest, block)
    ensures var v' := v.(bits := Refilled(v.bits, chunk));
      Waits(h, p, s, restartInterval, i, j, v', rest) && Pending(h, p, order, s, i, j, v', rest, block)
  {
    hide Legal, NaturalOrder, Zigzag, DecodeBlock, Standing, Reader.Rest, Reader.End, Reader.Future;
    RefilledIs(v.bits, chunk);
    assert v.bits.input + (chunk + rest) == v.bits.input + chunk + rest;
  }

  /** A block is tried until it is complete, with one more piece of input after every suspension; a piece may be
      empty. */
  method DecodeNext(d: PhuffDecoder, block: array<int>, chunks: seq<seq<byte>>, ghost s: Script, ghost i: nat, ghost j: nat)
    returns (left: seq<seq<byte>>)
    requires block.Length == 64 && Awaits(d, s, i, j, Joined(chunks)) && Upcoming(s, i, j)
    requires Pending(d.h, d.p, d.order, s, i, j, SavedOf(d), Joined(chunks), block[..])
    modifies d, block
    ensures var (i', j') := Next(s, i, j);
      && Awaits(d, s, i', j' + 1, Joined(left))
      && Zigzag(d.order, block[..]) == Improve(s.befores[i'][j'], s.zss[i'][j'], d.p.ss, d.p.se, d.p.al)
  {
    hide Legal, Zigzag, Standing, Improve, Waits, Pending, Next;
    left := chunks;
    ghost var a, b := i, j;
    while true
      invariant Upcoming(s, a, b) && Next(s, a, b) == Next(s, i, j) && Awaits(d, s, a, b, Joined(left))
      invariant Pending(d.h, d.p, d.order, s, a, b, SavedOf(d), Joined(left), block[..])
      decreases |left|
    {
      var done;
      done, a, b := Try(d, block, s, a, b, Joined(left));
      if done { return; }
      JoinedFirst(left);
      RefillWaits(d.h, d.p, d.order, s, d.restartInterval, a, b, SavedOf(d), left[0], Joined(left[1..]), block[..]);
      d.Refill(left[0]);
      left := left[1..];
    }
  }

  // ---------- the whole scan ----------

  /** The next block is the one at the next position. */
  lemma NextPosition(h: Table, p: Params, s: Script, restartInterval: nat, i: nat, j: nat)
    requires Legal(h) && AcScan.Valid(p) && Coded(h, p, s, restartInterval) && i < |s.zss| && j <= |s.zss[i]|
    requires Position(s.zss, i, j) < |Joined(s.zss)|
    ensures Upcoming(s, i, j)
    ensures var (i', j') := Next(s, i, j);
      && Position(s.zss, i', j') == Position(s.zss, i, j) < |Joined(s.befores)| == |Joined(s.zss)|
      && Joined(s.zss)[Position(s.zss, i, j)] == s.zss[i'][j'] && Joined(s.befores)[Position(s.zss, i, j)] == s.befores[i'][j']
  {
    hide Legal, EncodeScan, Flush, Ready, Joined;
    CodedAll(h, p, s, restartInterval);
    PositionAt(s.zss, i, j);
    if j == |s.zss[i]| {
      PositionNext(s.zss, i);
      PositionAt(s.zss, i + 1, 0);
      PositionAt(s.zss, i + 1, |s.zss[i + 1]|);
    }
    var (i', j') := Next(s, i, j);
    PositionAt(s.zss, i', j');
    PositionAt(s.befores, i', j');
    SamePositions(s.zss, s.befores, i');
    SamePositions(s.zss, s.befores, |s.zss|);
    assert s.zss[..|s.zss|] == s.zss && s.befores[..|s.befores|] == s.befores;
  }

  lemma CodedAll(h: Table, p: Params, s: Script, restartInterval: nat)
    requires Legal(h) && AcScan.Valid(p) && Coded(h, p, s, restartInterval)
    ensures |s.zss| == |s.befores| > 0 && forall k :: 0 <= k < |s.zss| ==> |s.zss[k]| == |s.befores[k]|
    ensures |s.zss| > 1 ==> restartInterval > 0 && forall k :: 0 <= k < |s.zss| - 1 ==> |s.zss[k]| == restartInterval
  {
    hide Legal, EncodeScan, Flush, Ready;
  }

  /** What the decoder makes of block k of a scan. */
  ghost function Meant(p: Params, s: Script, k: nat): Block
    requires k < |Joined(s.zss)| && k < |Joined(s.befores)|
  {
    Improve(Joined(s.befores)[k], Joined(s.zss)[k], p.ss, p.se, p.al)
  }

  lemma ScanBegins(d: PhuffDecoder, input: seq<byte>, future: seq<byte>, s: Script)
    requires d.Valid() && Begins(d.bits, input) && Coded(d.h, d.p, s, d.restartInterval)
    requires d.eobRun == 0 && d.nextRestartNum == 0 && d.restartsToGo == d.restartInterval
    requires input + future == ScanBytes(SegmentsOf(d.h, d.p, s.zss)) + ([0xFF, s.next] + s.after)
    ensures Awaits(d, s, 0, 0, future)
  {
    hide Legal, Lookahead, NaturalOrder, At, Standing, Begins, Coded, ScanBytes;
    BeginsMore(d.bits, input, future);
    AtStart(d.h, d.p, s, d.restartInterval, Refilled(d.bits, future));
    AtStanding(d.h, d.p, s, d.restartInterval, 0, 0, Refilled(d.bits, future), 0);
  }

  lemma NotBegun(d: PhuffDecoder, s: Script, i: nat, j: nat, future: seq<byte>, block: seq<int>)
    requires Awaits(d, s, i, j, future) && |block| == 64 && Upcoming(s, i, j)
    requires var (i', j') := Next(s, i, j);
      Zigzag(d.order, block) == s.befores[i'][j']
    ensures Pending(d.h, d.p, d.order, s, i, j, SavedOf(d), future, block)
  {
    hide Legal, NaturalOrder, Zigzag, DecodeBlock, Standing, Reader.Rest, Reader.End;
    RefilledIs(d.bits, future);
  }

  /** consume_data for an AC scan.  However the bytes of a coded scan are cut into pieces, and however often the
      decoder is called in vain, every block is completed as the encoder meant it. */
  method ConsumeScan(dt: DDerived, p: Params, order: seq<nat>, restartInterval: nat, input: seq<byte>, chunks: seq<seq<byte>>,
                     blocks: seq<array<int>>, ghost s: Script)
    requires Decodes(dt.pub, dt) && AcScan.Valid(p) && NaturalOrder(order) && restartInterval < 0x1_0000
    requires Coded(dt.pub, p, s, restartInterval)
    requires input + Joined(chunks) == ScanBytes(SegmentsOf(dt.pub, p, s.zss)) + ([0xFF, s.next] + s.after)
    requires |blocks| == |Joined(s.zss)| == |Joined(s.befores)|
    requires forall k :: 0 <= k < |blocks| ==> blocks[k].Length == 64
    requires forall k, l :: 0 <= k < l < |blocks| ==> blocks[k] != blocks[l]
    requires forall k :: 0 <= k < |blocks| ==> Zigzag(order, blocks[k][..]) == Joined(s.befores)[k]
    modifies blocks
    ensures forall k :: 0 <= k < |blocks| ==> Zigzag(order, blocks[k][..]) == Meant(p, s, k)
  {
    hide Legal, Lookahead, NaturalOrder, Zigzag, Standing, Improve, Waits, Pending, Next, Upcoming, Coded, Begins, Joined, ScanBytes, SegmentsOf,
      Position, PhuffDecoder.Stands;
    var d := new PhuffDecoder(dt, p, order, restartInterval, input, s);
    var left := chunks;
    ghost var i: nat, j: nat := 0, 0;
    ScanBegins(d, input, Joined(chunks), s);
    AwaitsPlace(d, s, 0, 0, Joined(chunks));
    PositionNone(s.zss);
    for k := 0 to |blocks|
      invariant d.order == order && d.p == p && Awaits(d, s, i, j, Joined(left)) && i < |s.zss| && j <= |s.zss[i]| && Position(s.zss, i, j) == k
      invariant fresh(d) && d.h == dt.pub && d.restartInterval == restartInterval
      invariant forall l :: 0 <= l < k ==> Zigzag(order, blocks[l][..]) == Meant(p, s, l)
      invariant forall l :: k <= l < |blocks| ==> blocks[l][..] == old(blocks[l][..])
    {
      NextPosition(dt.pub, p, s, restartInterval, i, j);
      NotBegun(d, s, i, j, Joined(left), blocks[k][..]);
      left := DecodeNext(d, blocks[k], left, s, i, j);
      i, j := Next(s, i, j).0, Next(s, i, j).1 + 1;
      AwaitsPlace(d, s, i, j, Joined(left));
      PositionStep(s.zss, i, j);
    }
  }

  lemma AwaitsPlace(d: PhuffDecoder, s: Script, i: nat, j: nat, future: seq<byte>)
    requires Awaits(d, s, i, j, future)
    ensures i < |s.zss| && j <= |s.zss[i]|
  {
    hide Legal, Standing, Coded;
    StandingPlace(d.h, d.p, s, d.restartInterval, i, j, Refilled(d.bits, future), d.eobRun);
  }
}
