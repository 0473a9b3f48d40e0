// The same for scans that are decoded MCU by MCU, sequential scans and the DC scans of progressive files: a
// coded scan that arrives in pieces.
module McuDelivery {
  import opened Wrappers
  import opened Bits
  import opened HuffmanTable
  import opened BitReader
  import opened DerivedTables
  import opened BitWriter
  import opened Segments
  import opened McuScan
  import opened McuEncoder
  import opened McuDecoder
  import opened MoreBits
  import opened Sequences
  import opened ZigzagOrder
  import D = Delivery

  function Refilled(r: Reader, more: seq<byte>): Reader { P.Refilled(r, more) }

  /** What a try does with the input at hand is what it would do with all of it. */
  lemma McuWithMore(c: Coder, last0: seq<int>, was: seq<Item>, now: seq<Item>, r: Reader, ok: bool, last: seq<int>, r': Reader, more: seq<byte>)
    requires ValidCoder(c) && |last0| == MAX_COMPS_IN_SCAN && r.Valid() && Refilled(r, more).Valid()
    requires McuDone(c, last0, was, now, r, ok, last, r') && GetAll(c, last0, was, Refilled(r, more).Rest()).Some?
    ensures ok ==> r'.Valid() && McuDone(c, last0, was, now, Refilled(r, more), true, last, Refilled(r', more))
    ensures !ok ==> r.End().None? && GetAll(c, last0, now, Refilled(r, more).Rest()) == GetAll(c, last0, was, Refilled(r, more).Rest())
  {
    hide Legal, SmallSymbols, GetAll, Destuff, MarkerIn, StubIn, Bin, Reader.Rest, Blocks, D.Added, D.WithMore;
    D.RefilledIs(r, more);
    if ok {
      D.RefilledIs(r', more);
      D.AddedNone(r, more);
      if GetAll(c, last0, was, r.Rest()).Some? { ItemsMore(c, last0, was, r.Rest(), D.Added(r.Future(), more)); }
    }
  }

  // ---------- where the decoder stands ----------

  /** The decoder has had j MCUs of segment i; at the end of a segment the padding may have been dropped. */
  ghost predicate Standing(c: Coder, s: Script, restartInterval: nat, i: nat, j: nat, r: Reader, last: seq<int>)
    requires ValidCoder(c)
  {
    if i < |s.zss| && j == |s.zss[i]| then
      Coded(c, s, restartInterval) && r.Valid() && !r.insufficient && r.End() == Some(EndOf(McuSegments(c, s.zss), i, s.next, s.after))
    else
      At(c, s, restartInterval, i, j, r, last)
  }

  lemma AtStanding(c: Coder, s: Script, restartInterval: nat, i: nat, j: nat, r: Reader, last: seq<int>)
    requires ValidCoder(c) && At(c, s, restartInterval, i, j, r, last)
    ensures Standing(c, s, restartInterval, i, j, r, last)
  {
    hide Legal, SmallSymbols, SendAll, EndOf, ItemsReady;
  }

  lemma AtFacts(c: Coder, s: Script, restartInterval: nat, i: nat, j: nat, r: Reader, last: seq<int>)
    requires ValidCoder(c) && At(c, s, restartInterval, i, j, r, last)
    ensures Coded(c, s, restartInterval) && r.Valid() && r.End().Some? && i < |s.zss| && j <= |s.zss[i]|
  {
    hide Legal, SmallSymbols, Coded, SendAll, EndOf;
  }

  lemma CodedSizes(c: Coder, s: Script, restartInterval: nat, i: nat)
    requires ValidCoder(c) && Coded(c, s, restartInterval) && i < |s.zss|
    ensures |s.zss| == |s.befores| && |s.zss[i]| == |s.befores[i]|
    ensures restartInterval > 0 ==> |s.zss[i]| <= restartInterval && (i + 1 < |s.zss| ==> |s.zss[i]| == restartInterval)
    ensures restartInterval == 0 ==> i + 1 == |s.zss|
  {
    hide Legal, SmallSymbols, SendAll, ItemsReady;
  }

  lemma StandingPlace(c: Coder, s: Script, restartInterval: nat, i: nat, j: nat, r: Reader, last: seq<int>)
    requires ValidCoder(c) && Standing(c, s, restartInterval, i, j, r, last)
    ensures Coded(c, s, restartInterval) && r.Valid() && !r.insufficient && r.End().Some? && i < |s.zss| == |s.befores| && j <= |s.zss[i]| == |s.befores[i]|
    ensures restartInterval > 0 ==> |s.zss[i]| <= restartInterval && (i + 1 < |s.zss| ==> |s.zss[i]| == restartInterval)
    ensures restartInterval == 0 ==> i + 1 == |s.zss|
  {
    hide Legal, SmallSymbols, At, Coded, EndOf, McuSegments;
    if !(i < |s.zss| && j == |s.zss[i]|) {
      AtFacts(c, s, restartInterval, i, j, r, last);
      AtPlace(c, s, restartInterval, i, j, r, last);
    }
    CodedSizes(c, s, restartInterval, i);
  }

  lemma NextDecodes(c: Coder, s: Script, restartInterval: nat, i: nat, j: nat, r: Reader, last: seq<int>)
    requires ValidCoder(c) && At(c, s, restartInterval, i, j, r, last) && i < |s.zss| == |s.befores| && j < |s.zss[i]| == |s.befores[i]|
    ensures |last| == MAX_COMPS_IN_SCAN && GetAll(c, last, s.befores[i][j], r.Rest()).Some?
  {
    hide Legal, SmallSymbols, EndOf, SendAll, GetAll, Flat, ItemsReady, ItemsAfter, Reader.Rest, Reader.End;
    var t := NextMcu(c, s.zss[i], j, s.befores[i][j], r.Rest(), Pad(SendAll(c, Flat(s.zss[i])).bits));
  }

  /** One try inside a segment. */
  lemma StepInside(c: Coder, s: Script, restartInterval: nat, i: nat, j: nat, was: seq<Item>, now: seq<Item>,
                   r: Reader, last0: seq<int>, ok: bool, r': Reader, last: seq<int>, future: seq<byte>)
    requires ValidCoder(c) && r.Valid() && |last0| == MAX_COMPS_IN_SCAN
    requires Standing(c, s, restartInterval, i, j, Refilled(r, future), last0) && i < |s.zss| == |s.befores| && j < |s.zss[i]| == |s.befores[i]|
    requires McuDone(c, last0, was, now, r, ok, last, r') && Refilled(r, future).Valid()
    requires GetAll(c, last0, was, Refilled(r, future).Rest()) == GetAll(c, last0, s.befores[i][j], Refilled(r, future).Rest())
    ensures ok ==> Standing(c, s, restartInterval, i, j + 1, Refilled(r', future), last)
    ensures ok ==> |s.befores[i][j]| == |s.zss[i][j]| && Blocks(now) == ItemsAfter(c, s.befores[i][j], s.zss[i][j])
    ensures !ok ==> future != []
    ensures !ok ==> GetAll(c, last0, now, Refilled(r, future).Rest()) == GetAll(c, last0, s.befores[i][j], Refilled(r, future).Rest())
  {
    hide Legal, SmallSymbols, GetAll, Destuff, MarkerIn, StubIn, Bin, Reader.Rest, Reader.End, Reader.Future, McuDone, At, ItemsAfter, Blocks, ItemReady;
    var v := Refilled(r, future);
    NextDecodes(c, s, restartInterval, i, j, v, last0);
    McuWithMore(c, last0, was, now, r, ok, last, r', future);
    MembersReady(c, s, restartInterval, i, j, v, last0);
    if ok {
      AtNextMcu(c, s, restartInterval, i, j, v, last0, was, now, true, last, Refilled(r', future));
      AtStanding(c, s, restartInterval, i, j + 1, Refilled(r', future), last);
    } else {
      StandingPlace(c, s, restartInterval, i, j, v, last0);
      D.NothingMore(r);
    }
  }

  lemma MembersReady(c: Coder, s: Script, restartInterval: nat, i: nat, j: nat, r: Reader, last: seq<int>)
    requires ValidCoder(c) && Standing(c, s, restartInterval, i, j, r, last) && i < |s.zss| == |s.befores| && j < |s.zss[i]| == |s.befores[i]|
    ensures |s.befores[i][j]| == |s.zss[i][j]|
  {
    hide Legal, SmallSymbols, SendAll, EndOf, Flat;
    assert ItemsReady(c, s.befores[i][j], s.zss[i][j]);
  }

  /** At the end of a segment: either its restart marker has not arrived, or it is the one expected. */
  lemma StepOver(c: Coder, s: Script, restartInterval: nat, i: nat, r: Reader, last: seq<int>, future: seq<byte>)
    requires ValidCoder(c) && i + 1 < |s.zss| && r.Valid()
    requires Standing(c, s, restartInterval, i, |s.zss[i]|, Refilled(r, future), last)
    ensures r.End().Some? ==> r.End().value.0 == RestartCode(i)
    ensures r.End().None? ==> future != [] && Standing(c, s, restartInterval, i, |s.zss[i]|, Refilled(r.(bitsLeft := 0), future), last)
  {
    hide Legal, SmallSymbols, Coded, Destuff, MarkerIn, StubIn, SendAll, From, Pow2, Bin, Bytes, Pad;
    D.RefilledIs(r, future);
    D.NothingMore(r);
  }

  lemma StepNext(c: Coder, s: Script, restartInterval: nat, i: nat, r: Reader, last: seq<int>, r': Reader, future: seq<byte>)
    requires ValidCoder(c) && i + 1 < |s.zss| && r.Valid() && r.End().Some? && P.Begins(r', r.End().value.1)
    requires Standing(c, s, restartInterval, i, |s.zss[i]|, Refilled(r, future), last)
    ensures At(c, s, restartInterval, i + 1, 0, Refilled(r', future), NoLast)
  {
    hide Legal, SmallSymbols, ItemsReady, SendAll, From, Pow2, Bin, Bytes, Pad, NextUnit, Reader.Rest;
    D.RefilledIs(r, future);
    D.RefilledIs(r', future);
    D.InputMore(r.End().value.1, future);
    FromReads(McuSegments(c, s.zss), i + 1, s.next, s.after);
    D.BeginsMore(r', r.End().value.1, future);
    FirstMcu(c, s.zss[i + 1], Refilled(r', future).Rest());
  }

  // ---------- one call ----------

  /** What the decoder saves between calls. */
  datatype Saved = Saved(bits: Reader, last: seq<int>, togo: nat, next: nat)

  /** The decoder has had j MCUs of segment i, and the bytes `future` have not arrived. */
  ghost predicate Waits(c: Coder, s: Script, restartInterval: nat, i: nat, j: nat, v: Saved, future: seq<byte>)
    requires ValidCoder(c)
  {
    && v.bits.Valid() && |v.last| == MAX_COMPS_IN_SCAN && Standing(c, s, restartInterval, i, j, Refilled(v.bits, future), v.last)
    && v.next == i % 8 && (restartInterval > 0 ==> v.togo == restartInterval - j)
  }

  /** The next MCU decodes to what the encoder meant, whether or not it has been begun. */
  ghost predicate Pending(c: Coder, s: Script, i: nat, j: nat, v: Saved, future: seq<byte>, items: seq<Item>)
    requires ValidCoder(c) && Upcoming(s, i, j) && |v.last| == MAX_COMPS_IN_SCAN
  {
    if j < |s.zss[i]| then
      Refilled(v.bits, future).Valid()
      && GetAll(c, v.last, items, Refilled(v.bits, future).Rest()) == GetAll(c, v.last, s.befores[i][j], Refilled(v.bits, future).Rest())
    else
      items == s.befores[i + 1][0]
  }

  ghost predicate Due(restartInterval: nat, v: Saved) { restartInterval > 0 && v.togo == 0 }

  /** A restart is due and its marker has not arrived. */
  ghost predicate Early(restartInterval: nat, v: Saved)
    requires v.bits.Valid()
  {
    Due(restartInterval, v) && v.bits.End().None?
  }

  /** What DecodeMcu does to the saved state, unless it is out of step. */
  ghost predicate Called(c: Coder, restartInterval: nat, was: seq<Item>, now: seq<Item>, v0: Saved, done: bool, start: Reader, last: seq<int>, v1: Saved)
    requires ValidCoder(c) && v0.bits.Valid() && start.Valid() && |last| == MAX_COMPS_IN_SCAN
  {
    if Early(restartInterval, v0) then
      !done && now == was && v1 == v0.(bits := v0.bits.(bitsLeft := 0))
    else
      && (if Due(restartInterval, v0) then P.Begins(start, v0.bits.End().value.1) && last == NoLast else start == v0.bits && last == v0.last)
      && (!start.insufficient ==> McuDone(c, last, was, now, start, done, v1.last, v1.bits))
      && (!done ==> v1.bits == start && v1.last == last)
      && v1.next == (if Due(restartInterval, v0) then (v0.next + 1) % 8 else v0.next)
      && var togo := if Due(restartInterval, v0) then restartInterval else v0.togo;
         v1.togo == if done then (togo + 0xFFFF_FFFF) % 0x1_0000_0000 else togo
  }

  /** In a scan the restart marker is the one expected, so the decoder never is out of step. */
  lemma NotLost(c: Coder, s: Script, restartInterval: nat, i: nat, j: nat, v: Saved, future: seq<byte>)
    requires ValidCoder(c) && Waits(c, s, restartInterval, i, j, v, future) && Upcoming(s, i, j)
    ensures Due(restartInterval, v) <==> j == |s.zss[i]|
    ensures Due(restartInterval, v) && v.bits.End().Some? ==> v.bits.End().value.0 == RestartCode(v.next)
  {
    hide Legal, SmallSymbols, Coded, Standing, Reader.End, Refilled, EndOf;
    StandingPlace(c, s, restartInterval, i, j, Refilled(v.bits, future), v.last);
    if Due(restartInterval, v) { StepOver(c, s, restartInterval, i, v.bits, v.last, future); }
  }

  /** The marker is late. */
  lemma TryEarly(c: Coder, s: Script, restartInterval: nat, i: nat, j: nat, v: Saved, future: seq<byte>, items: seq<Item>, v': Saved)
    requires ValidCoder(c) && Waits(c, s, restartInterval, i, j, v, future) && Upcoming(s, i, j)
    requires Pending(c, s, i, j, v, future, items) && Early(restartInterval, v) && v' == v.(bits := v.bits.(bitsLeft := 0))
    ensures future != [] && Waits(c, s, restartInterval, i, j, v', future) && Pending(c, s, i, j, v', future, items)
  {
    hide Legal, SmallSymbols, Coded, GetAll, Standing, Reader.Rest, Reader.End;
    NotLost(c, s, restartInterval, i, j, v, future);
    StepOver(c, s, restartInterval, i, v.bits, v.last, future);
  }

  lemma NextFixed(s: Script, i: nat, j: nat)
    requires Upcoming(s, i, j)
    ensures var (i', j') := Next(s, i, j);
      && i' < |s.zss| == |s.befores| && j' < |s.zss[i']| == |s.befores[i']| && Upcoming(s, i', j') && Next(s, i', j') == (i', j')
  {
  }

  /** Where the call starts with the next MCU. */
  lemma TryStart(c: Coder, s: Script, restartInterval: nat, i: nat, j: nat, v: Saved, future: seq<byte>, was: seq<Item>, start: Reader, last: seq<int>)
    requires ValidCoder(c) && start.Valid() && |last| == MAX_COMPS_IN_SCAN
    requires Waits(c, s, restartInterval, i, j, v, future) && Upcoming(s, i, j) && Pending(c, s, i, j, v, future, was)
    requires !Early(restartInterval, v)
    requires if Due(restartInterval, v) then P.Begins(start, v.bits.End().value.1) && last == NoLast else start == v.bits && last == v.last
    ensures var (i', j') := Next(s, i, j);
      && Standing(c, s, restartInterval, i', j', Refilled(start, future), last) && !start.insufficient && Refilled(start, future).Valid()
      && GetAll(c, last, was, Refilled(start, future).Rest()) == GetAll(c, last, s.befores[i'][j'], Refilled(start, future).Rest())
      && (restartInterval > 0 ==> |s.zss[i']| <= restartInterval) && (i', j') == (if Due(restartInterval, v) then (i + 1, 0) else (i, j))
  {
    hide Legal, SmallSymbols, Coded, GetAll, Standing, Reader.Rest, Reader.End, P.Begins, At;
    var (i', j') := Next(s, i, j);
    NotLost(c, s, restartInterval, i, j, v, future);
    StandingPlace(c, s, restartInterval, i, j, Refilled(v.bits, future), v.last);
    if j == |s.zss[i]| {
      StepNext(c, s, restartInterval, i, v.bits, v.last, start, future);
      AtStanding(c, s, restartInterval, i', 0, Refilled(start, future), NoLast);
    }
    StandingPlace(c, s, restartInterval, i', j', Refilled(start, future), last);
  }

  /** The call comes to the next MCU. */
  lemma TryStep(c: Coder, s: Script, restartInterval: nat, i: nat, j: nat, v0: Saved, future: seq<byte>,
                was: seq<Item>, now: seq<Item>, done: bool, start: Reader, last: seq<int>, v1: Saved)
    requires ValidCoder(c) && restartInterval < 0x1_0000 && start.Valid() && |last| == MAX_COMPS_IN_SCAN
    requires Waits(c, s, restartInterval, i, j, v0, future) && Upcoming(s, i, j) && Pending(c, s, i, j, v0, future, was)
    requires !Early(restartInterval, v0) && Called(c, restartInterval, was, now, v0, done, start, last, v1)
    ensures var (i', j') := Next(s, i, j);
      && (done ==> Waits(c, s, restartInterval, i', j' + 1, v1, future))
      && (done ==> |s.befores[i'][j']| == |s.zss[i'][j']| && Blocks(now) == ItemsAfter(c, s.befores[i'][j'], s.zss[i'][j']))
      && (!done ==> future != [] && Upcoming(s, i', j') && Next(s, i', j') == (i', j'))
      && (!done ==> Waits(c, s, restartInterval, i', j', v1, future) && Pending(c, s, i', j', v1, future, now))
  {
    hide Legal, SmallSymbols, Coded, GetAll, Standing, Reader.Rest, Reader.End, McuDone, P.Begins, ItemsAfter, Blocks, At, Refilled, Next;
    var (i', j') := Next(s, i, j);
    NextFixed(s, i, j);
    TryStart(c, s, restartInterval, i, j, v0, future, was, start, last);
    DoneStops(c, last, was, now, start, done, v1.last, v1.bits);
    StepInside(c, s, restartInterval, i', j', was, now, start, last, done, v1.bits, v1.last, future);
  }

  // ---------- the consumer ----------

  ghost function SavedOf(d: HuffDecoder): Saved
    reads d
  {
    Saved(d.bits, d.lastDc, d.restartsToGo, d.nextRestartNum)
  }

  ghost predicate Awaits(d: HuffDecoder, s: Script, i: nat, j: nat, future: seq<byte>)
    reads d
  {
    d.Valid() && Waits(d.c, s, d.restartInterval, i, j, SavedOf(d), future)
  }

  /** The blocks of an MCU are 64 coefficients each, and different. */
  predicate Mcu64(c: Coder, blocks: seq<array<int>>) {
    && |blocks| == |c.membership| && (forall b :: 0 <= b < |blocks| ==> blocks[b].Length == 64)
    && forall a, b :: 0 <= a < b < |blocks| ==> blocks[a] != blocks[b]
  }

  ghost function Held(c: Coder, order: seq<nat>, blocks: seq<array<int>>): seq<Item>
    requires Mcu64(c, blocks) && NaturalOrder(order)
    reads blocks
  {
    ItemsOf(c.membership, order, Contents(blocks), |blocks|)
  }

  lemma WaitsReader(c: Coder, s: Script, restartInterval: nat, i: nat, j: nat, v: Saved, future: seq<byte>)
    requires ValidCoder(c) && Waits(c, s, restartInterval, i, j, v, future)
    ensures v.bits.Valid() && v.next < 8
  {
    hide Legal, SmallSymbols, Standing;
  }

  /** One call of decode_mcu: it completes the next MCU, or more input is needed and still to come. */
  method Try(d: HuffDecoder, blocks: seq<array<int>>, ghost s: Script, ghost i: nat, ghost j: nat, ghost future: seq<byte>)
    returns (done: bool, ghost i': nat, ghost j': nat)
    requires Awaits(d, s, i, j, future) && Upcoming(s, i, j) && Mcu64(d.c, blocks)
    requires Pending(d.c, s, i, j, SavedOf(d), future, Held(d.c, d.order, blocks))
    modifies d, blocks
    ensures done ==> (i', j') == Next(s, i, j) && Upcoming(s, i', j') && Awaits(d, s, i', j' + 1, future)
    ensures done ==> |s.befores[i'][j']| == |s.zss[i'][j']| && Blocks(Held(d.c, d.order, blocks)) == ItemsAfter(d.c, s.befores[i'][j'], s.zss[i'][j'])
    ensures !done ==> future != [] && Upcoming(s, i', j') && Next(s, i', j') == Next(s, i, j) && Awaits(d, s, i', j', future)
    ensures !done ==> Pending(d.c, s, i', j', SavedOf(d), future, Held(d.c, d.order, blocks))
  {
    hide Legal, SmallSymbols, NaturalOrder, McuDone, At, Standing, ItemsAfter, Blocks, P.Begins, Waits, Pending, Reader.Rest, Reader.End, ItemsOf,
      HuffDecoder.Stands, Next;
    NextFixed(s, i, j);
    ghost var was, v := Held(d.c, d.order, blocks), SavedOf(d);
    WaitsReader(d.c, s, d.restartInterval, i, j, v, future);
    NotLost(d.c, s, d.restartInterval, i, j, v, future);
    var res;
    ghost var start, last;
    res, start, last := d.DecodeMcu(blocks, s, i, j);
    done := res.Completed?;
    ghost var now := Held(d.c, d.order, blocks);
    assert Called(d.c, d.restartInterval, was, now, v, done, start, last, SavedOf(d));
    if Early(d.restartInterval, v) {
      i', j' := i, j;
      TryEarly(d.c, s, d.restartInterval, i, j, v, future, was, SavedOf(d));
    } else {
      i', j' := Next(s, i, j).0, Next(s, i, j).1;
      TryStep(d.c, s, d.restartInterval, i, j, v, future, was, now, done, start, last, SavedOf(d));
    }
  }

  lemma RefillWaits(c: Coder, s: Script, restartInterval: nat, i: nat, j: nat, v: Saved, chunk: seq<byte>, rest: seq<byte>, items: seq<Item>)
    requires ValidCoder(c) && Upcoming(s, i, j)
    requires Waits(c, s, restartInterval, i, j, v, chunk + rest) && Pending(c, s, i, j, v, chunk + rest, items)
    ensures var v' := v.(bits := Refilled(v.bits, chunk));
      Waits(c, s, restartInterval, i, j, v', rest) && Pending(c, s, i, j, v', rest, items)
  {
    hide Legal, SmallSymbols, GetAll, Standing, Reader.Rest, Reader.End, Reader.Future;
    D.RefilledIs(v.bits, chunk);
    assert v.bits.input + (chunk + rest) == v.bits.input + chunk + rest;
  }

  /** An MCU is tried until it is complete, with one more piece of input after every suspension; a piece may be
      empty. */
  method DecodeNext(d: HuffDecoder, blocks: seq<array<int>>, chunks: seq<seq<byte>>, ghost s: Script, ghost i: nat, ghost j: nat)
    returns (left: seq<seq<byte>>)
    requires Awaits(d, s, i, j, Joined(chunks)) && Upcoming(s, i, j) && Mcu64(d.c, blocks)
    requires Pending(d.c, s, i, j, SavedOf(d), Joined(chunks), Held(d.c, d.order, blocks))
    modifies d, blocks
    ensures var (i', j') := Next(s, i, j);
      && Awaits(d, s, i', j' + 1, Joined(left))
      && |s.befores[i'][j']| == |s.zss[i'][j']| && Blocks(Held(d.c, d.order, blocks)) == ItemsAfter(d.c, s.befores[i'][j'], s.zss[i'][j'])
  {
    hide Legal, SmallSymbols, Standing, ItemsAfter, Blocks, Waits, Pending, Next, ItemsOf;
    left := chunks;
    ghost var a, b := i, j;
    while true
      invariant Upcoming(s, a, b) && Next(s, a, b) == Next(s, i, j) && Awaits(d, s, a, b, Joined(left))
      invariant Pending(d.c, s, a, b, SavedOf(d), Joined(left), Held(d.c, d.order, blocks))
      decreases |left|
    {
      var done;
      done, a, b := Try(d, blocks, s, a, b, Joined(left));
      if done { return; }
      JoinedFirst(left);
      RefillWaits(d.c, s, d.restartInterval, a, b, SavedOf(d), left[0], Joined(left[1..]), Held(d.c, d.order, blocks));
      d.Refill(left[0]);
      left := left[1..];
    }
  }

  // ---------- the whole scan ----------

  lemma CodedAll(c: Coder, s: Script, restartInterval: nat)
    requires ValidCoder(c) && Coded(c, s, restartInterval)
    ensures |s.zss| == |s.befores| > 0 && forall k :: 0 <= k < |s.zss| ==> |s.zss[k]| == |s.befores[k]|
    ensures |s.zss| > 1 ==> restartInterval > 0 && forall k :: 0 <= k < |s.zss| - 1 ==> |s.zss[k]| == restartInterval
  {
    hide Legal, SmallSymbols, SendAll, ItemsReady;
  }

  /** The next MCU is the one at the next position. */
  lemma NextPosition(c: Coder, s: Script, restartInterval: nat, i: nat, j: nat)
    requires ValidCoder(c) && Coded(c, s, restartInterval) && i < |s.zss| && j <= |s.zss[i]|
    requires Position(s.zss, i, j) < |Joined(s.zss)|
    ensures Upcoming(s, i, j)
    ensures var (i', j') := Next(s, i, j);
      && Position(s.zss, i', j') == Position(s.zss, i, j) < |Joined(s.befores)| == |Joined(s.zss)|
      && Joined(s.zss)[Position(s.zss, i, j)] == s.zss[i'][j'] && Joined(s.befores)[Position(s.zss, i, j)] == s.befores[i'][j']
  {
    hide Legal, SmallSymbols, SendAll, ItemsReady, Coded, Joined;
    CodedAll(c, s, restartInterval);
    PositionAt(s.zss, i, j);
    if j == |s.zss[i]| {
      PositionNext(s.zss, i);
      PositionAt(s.zss, i + 1, 0);
      PositionAt(s.zss, i + 1, |s.zss[i + 1]|);
    }
    var (i', j') := Next(s, i, j);
    PositionAt(s.zss, i', j');
    PositionAt(s.befores, i', j');
    SamePositions(s.zss, s.befores, i');
    SamePositions(s.zss, s.befores, |s.zss|);
    assert s.zss[..|s.zss|] == s.zss && s.befores[..|s.befores|] == s.befores;
  }

  lemma ScanBegins(d: HuffDecoder, input: seq<byte>, future: seq<byte>, s: Script)
    requires d.Valid() && P.Begins(d.bits, input) && Coded(d.c, s, d.restartInterval)
    requires d.lastDc == NoLast && d.nextRestartNum == 0 && d.restartsToGo == d.restartInterval
    requires input + future == ScanBytes(McuSegments(d.c, s.zss)) + ([0xFF, s.next] + s.after)
    ensures Awaits(d, s, 0, 0, future)
  {
    hide Legal, SmallSymbols, At, Standing, P.Begins, Coded, ScanBytes, HuffDecoder.Static;
    BeginsReader(d.bits, input);
    D.BeginsMore(d.bits, input, future);
    SuppliedCoder(d);
    AtStart(d.c, s, d.restartInterval, Refilled(d.bits, future));
    AtStanding(d.c, s, d.restartInterval, 0, 0, Refilled(d.bits, future), NoLast);
  }

  lemma BeginsReader(r: Reader, input: seq<byte>)
    requires P.Begins(r, input)
    ensures r.Valid()
  {
  }

  lemma SuppliedCoder(d: HuffDecoder)
    requires d.Valid()
    ensures ValidCoder(d.c)
  {
    hide Legal, SmallSymbols;
  }

  lemma AwaitsValid(d: HuffDecoder, s: Script, i: nat, j: nat, future: seq<byte>)
    requires Awaits(d, s, i, j, future)
    ensures d.Valid() && ValidCoder(d.c)
  {
    hide Legal, SmallSymbols, Waits;
  }

  lemma NotBegun(d: HuffDecoder, s: Script, i: nat, j: nat, future: seq<byte>, items: seq<Item>)
    requires Awaits(d, s, i, j, future) && Upcoming(s, i, j)
    requires var (i', j') := Next(s, i, j);
      items == s.befores[i'][j']
    ensures Pending(d.c, s, i, j, SavedOf(d), future, items)
  {
    hide Legal, SmallSymbols, GetAll, Standing, Reader.Rest, Reader.End;
    D.RefilledIs(d.bits, future);
  }

  lemma AwaitsPlace(d: HuffDecoder, s: Script, i: nat, j: nat, future: seq<byte>)
    requires Awaits(d, s, i, j, future)
    ensures i < |s.zss| && j <= |s.zss[i]|
  {
    hide Legal, SmallSymbols, Standing, Coded;
    StandingPlace(d.c, s, d.restartInterval, i, j, Refilled(d.bits, future), d.lastDc);
  }

  /** What the decoder makes of MCU k of a scan. */
  ghost predicate AsMeant(c: Coder, s: Script, k: nat, items: seq<Item>)
    requires k < |Joined(s.zss)| && k < |Joined(s.befores)|
  {
    && |Joined(s.befores)[k]| == |Joined(s.zss)[k]|
    && Blocks(items) == ItemsAfter(c, Joined(s.befores)[k], Joined(s.zss)[k])
  }

  /** consume_data for a scan of MCUs.  However the bytes of a coded scan are cut into
      pieces, and however often the decoder is called in vain, every MCU is completed as the encoder meant it. */
  method ConsumeScan(c: Coder, dcTbls: seq<DDerived>, acTbls: seq<DDerived>, order: seq<nat>, restartInterval: nat, input: seq<byte>,
                     chunks: seq<seq<byte>>, mcus: seq<seq<array<int>>>, ghost s: Script)
    requires Supplied(c, dcTbls, acTbls) && NaturalOrder(order) && restartInterval < 0x1_0000 && Coded(c, s, restartInterval)
    requires input + Joined(chunks) == ScanBytes(McuSegments(c, s.zss)) + ([0xFF, s.next] + s.after)
    requires |mcus| == |Joined(s.zss)| == |Joined(s.befores)| && forall k :: 0 <= k < |mcus| ==> Mcu64(c, mcus[k])
    requires forall k, l, a, b :: 0 <= k < l < |mcus| && 0 <= a < |mcus[k]| && 0 <= b < |mcus[l]| ==> mcus[k][a] != mcus[l][b]
    requires forall k :: 0 <= k < |mcus| ==> Held(c, order, mcus[k]) == Joined(s.befores)[k]
    modifies set k, b | 0 <= k < |mcus| && 0 <= b < |mcus[k]| :: mcus[k][b]
    ensures forall k :: 0 <= k < |mcus| ==> AsMeant(c, s, k, Held(c, order, mcus[k]))
  {
    hide Legal, SmallSymbols, Supplied, NaturalOrder, Standing, Waits, Pending, Next, Upcoming, Coded, P.Begins, Joined, ScanBytes, McuSegments,
      Position, ItemsOf, ItemsAfter, Blocks, Awaits, Held, HuffDecoder.Stands, HuffDecoder.Static;
    var d := new HuffDecoder(c, dcTbls, acTbls, order, restartInterval, input, s);
    var left := chunks;
    ghost var i: nat, j: nat := 0, 0;
    ScanBegins(d, input, Joined(chunks), s);
    AwaitsPlace(d, s, 0, 0, Joined(chunks));
    PositionNone(s.zss);
    for k := 0 to |mcus|
      invariant fresh(d) && d.order == order && d.c == c && d.restartInterval == restartInterval
      invariant Awaits(d, s, i, j, Joined(left)) && i < |s.zss| && j <= |s.zss[i]| && Position(s.zss, i, j) == k
      invariant forall l :: 0 <= l < k ==> AsMeant(c, s, l, Held(c, order, mcus[l]))
      invariant forall l :: k <= l < |mcus| ==> Held(c, order, mcus[l]) == old(Held(c, order, mcus[l]))
    {
      AwaitsValid(d, s, i, j, Joined(left));
      NextPosition(c, s, restartInterval, i, j);
      NotBegun(d, s, i, j, Joined(left), Held(c, order, mcus[k]));
      left := DecodeNext(d, mcus[k], left, s, i, j);
      i, j := Next(s, i, j).0, Next(s, i, j).1 + 1;
      AwaitsPlace(d, s, i, j, Joined(left));
      PositionStep(s.zss, i, j);
    }
  }
}
