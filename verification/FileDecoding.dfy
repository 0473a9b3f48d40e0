// A progressive file read by the decoder objects: consume_data for one scan after the other, into the arrays
// that hold the coefficients of the image.
module FileDecoding {
  import opened Bits
  import opened HuffmanTable
  import opened DerivedTables
  import opened Segments
  import opened AcBlocks
  import opened AcScan
  import opened McuScan
  import opened ScanScript
  import opened Precision
  import opened ScanRun
  import opened Sequences
  import opened ZigzagOrder
  import D = Delivery
  import M = McuDelivery
  import P = ProgressiveDecoder
  import H = McuDecoder

  // ---------- the arrays of an image ----------

  /** The coefficient arrays of every component. */
  type Arrays = seq<seq<array<int>>>

  predicate There(arrays: Arrays, ci: int, b: int) {
    0 <= ci < |arrays| && 0 <= b < |arrays[ci]|
  }

  /** One array of 64 coefficients for each block of the image, all different. */
  ghost predicate Shaped(arrays: Arrays, image: Image) {
    && |arrays| == |image| && (forall ci :: 0 <= ci < |arrays| ==> |arrays[ci]| == |image[ci]|)
    && (forall ci, b :: There(arrays, ci, b) ==> arrays[ci][b].Length == 64)
    && (forall ci, b, ci', b' :: There(arrays, ci, b) && There(arrays, ci', b') && (ci != ci' || b != b') ==> arrays[ci][b] != arrays[ci'][b'])
  }

  ghost function Footprint(arrays: Arrays): set<array<int>> {
    set ci, b | 0 <= ci < |arrays| && 0 <= b < |arrays[ci]| :: arrays[ci][b]
  }

  /** The arrays hold the image, in natural order. */
  ghost predicate Represents(order: seq<nat>, arrays: Arrays, image: Image)
    requires NaturalOrder(order) && Shaped(arrays, image)
    reads Footprint(arrays)
  {
    forall ci, b :: There(arrays, ci, b) ==> Zigzag(order, arrays[ci][b][..]) == image[ci][b]
  }

  /** Coefficient k of a block in natural order, against the original block in zigzag order. */
  ghost predicate NearAt(order: seq<nat>, block: seq<int>, z: Block, p: int, k: nat) {
    k < |order| && order[k] < |block| && k < 64 && Near(k, p, z[k], block[order[k]])
  }

  /** Every coefficient in the arrays is as near to the original as the last scan that sent it says. */
  ghost predicate ArraysNear(order: seq<nat>, arrays: Arrays, orig: Image, scans: seq<Scan>)
    requires Shaped(arrays, orig)
    reads Footprint(arrays)
  {
    forall ci, b, k: nat {:trigger LastAl(scans, ci, k), arrays[ci][b]} :: There(arrays, ci, b) && k < 64 ==>
      NearAt(order, arrays[ci][b][..], orig[ci][b], LastAl(scans, ci, k), k)
  }

  predicate Within(s: Scan, arrays: Arrays, il: Interleaving) {
    forall i :: 0 <= i < |il| ==> il[i].0 < |s.comps| && There(arrays, s.comps[il[i].0], il[i].1)
  }

  /** The arrays of the blocks listed. */
  function Pick(s: Scan, arrays: Arrays, il: Interleaving): (blocks: seq<array<int>>)
    requires Within(s, arrays, il)
    ensures |blocks| == |il|
  {
    seq(|il|, i requires 0 <= i < |il| => arrays[s.comps[il[i].0]][il[i].1])
  }

  // ---------- an AC scan ----------

  /** The restart interval divides the MCUs of the scan in this way. */
  predicate Divided(sizes: seq<nat>, restartInterval: nat) {
    && sizes != [] && (if restartInterval == 0 then |sizes| == 1 else sizes[|sizes| - 1] <= restartInterval)
    && forall i :: 0 <= i < |sizes| - 1 ==> sizes[i] == restartInterval
  }

  function Sizes<T>(segs: seq<seq<T>>): (sizes: seq<nat>)
    ensures |sizes| == |segs|
  {
    seq(|segs|, i requires 0 <= i < |segs| => |segs[i]|)
  }

  function BlocksOf(s: Scan, image: Image, segs: seq<Interleaving>): (zss: seq<seq<Block>>)
    requires AllCover(s, image, segs)
    ensures |zss| == |segs|
  {
    seq(|segs|, i requires 0 <= i < |segs| => Blocks(Items(s, image, segs[i])))
  }

  /** An AC scan as the decoder object knows it. */
  function AcScript(x: Pass, orig: Image, dec: Image, t: seq<byte>): P.Script
    requires AllCover(x.scan, orig, x.segs) && AllCover(x.scan, dec, x.segs)
  {
    P.Script(BlocksOf(x.scan, orig, x.segs), BlocksOf(x.scan, dec, x.segs), x.next, x.header + t)
  }

  lemma {:induction false} JoinedCovers(s: Scan, image: Image, segs: seq<Interleaving>)
    requires AllCover(s, image, segs)
    ensures Covers(s, image, Joined(segs))
    ensures Joined(BlocksOf(s, image, segs)) == Blocks(Items(s, image, Joined(segs)))
    decreases |segs|
  {
    if segs != [] {
      var n := |segs| - 1;
      JoinedCovers(s, image, segs[..n]);
      assert BlocksOf(s, image, segs)[..n] == BlocksOf(s, image, segs[..n]);
      assert Covers(s, image, segs[n]);
      assert Blocks(Items(s, image, Joined(segs[..n]) + segs[n])) == Blocks(Items(s, image, Joined(segs[..n]))) + Blocks(Items(s, image, segs[n]));
    }
  }

  lemma AcReady(x: Pass, bits: Positions, orig: Image, dec: Image, i: nat)
    requires ScanOk(x.scan, bits) && ImageReached(bits, orig, dec) && x.scan.ss > 0 && Suits(x.coding, x.scan) && i < |x.segs|
    requires AllCover(x.scan, orig, x.segs) && AllCover(x.scan, dec, x.segs)
    ensures AllReady(x.coding.p, BlocksOf(x.scan, dec, x.segs)[i], BlocksOf(x.scan, orig, x.segs)[i])
  {
    hide Legal, BlockReached, RowOk, Ready, ImageAfter;
    ScanStep(x.scan, bits, orig, dec);
    var s, il := x.scan, x.segs[i];
    forall k | 0 <= k < |il| ensures Ready(x.coding.p, BlocksOf(s, dec, x.segs)[i][k], BlocksOf(s, orig, x.segs)[i][k]) {
      assert BlockReady(s, dec[s.comps[il[k].0]][il[k].1], orig[s.comps[il[k].0]][il[k].1]);
    }
  }

  /** The bytes of the file at an AC scan are the coded scan that the decoder object expects. */
  lemma AcPass(x: Pass, bits: Positions, orig: Image, dec: Image, t: seq<byte>, restartInterval: nat)
    requires ScanOk(x.scan, bits) && ImageReached(bits, orig, dec) && x.scan.ss > 0 && x.Sent(orig) && AllCover(x.scan, dec, x.segs)
    requires Divided(Sizes(x.segs), restartInterval)
    ensures var h, p, s := x.coding.h, x.coding.p, AcScript(x, orig, dec, t);
      && P.Coded(h, p, s, restartInterval)
      && x.Data(orig) + t == ScanBytes(SegmentsOf(h, p, s.zss)) + ([0xFF, s.next] + s.after)
  {
    hide Legal, Flush, EncodeScan, ScanBytes, Lists, Ready, BlockReached, RowOk;
    var h, p, s := x.coding.h, x.coding.p, AcScript(x, orig, dec, t);
    forall i | 0 <= i < |s.zss| ensures AllReady(p, s.befores[i], s.zss[i]) && Flush(h, EncodeScan(h, p, s.zss[i])).ok && |s.zss[i]| == Sizes(x.segs)[i] {
      AcReady(x, bits, orig, dec, i);
      assert SendSegment(x.coding, Items(x.scan, orig, x.segs[i])).0;
    }
    assert SegmentsOf(h, p, s.zss) == Segs(x.coding, x.scan, orig, x.segs);
    assert ScanBytes(Segs(x.coding, x.scan, orig, x.segs)) + ([0xFF, x.next] + x.header) + t == ScanBytes(SegmentsOf(h, p, s.zss)) + ([0xFF, s.next] + s.after);
  }

  lemma CoversWithin(s: Scan, arrays: Arrays, image: Image, il: Interleaving)
    requires Shaped(arrays, image) && Covers(s, image, il)
    ensures Within(s, arrays, il)
  {
  }

  /** The arrays of the blocks listed are 64 coefficients each and different. */
  lemma Picked(s: Scan, n: nat, arrays: Arrays, image: Image, il: Interleaving)
    requires IndexesOk(s, n) && Shaped(arrays, image) && Lists(s, image, il)
    ensures Within(s, arrays, il)
    ensures var blocks := Pick(s, arrays, il);
      && (forall k :: 0 <= k < |blocks| ==> blocks[k].Length == 64 && blocks[k] in Footprint(arrays))
      && forall k, l :: 0 <= k < l < |blocks| ==> blocks[k] != blocks[l]
  {
    hide Shaped, IndexesOk;
    CoversWithin(s, arrays, image, il);
    var blocks := Pick(s, arrays, il);
    forall k | 0 <= k < |blocks| ensures blocks[k].Length == 64 && blocks[k] in Footprint(arrays) {
      OfShape(arrays, image, s.comps[il[k].0], il[k].1);
    }
    forall k, l | 0 <= k < l < |blocks| ensures blocks[k] != blocks[l] {
      PairApart(s, n, arrays, image, il, k, l);
    }
  }

  lemma OfShape(arrays: Arrays, image: Image, ci: int, b: int)
    requires Shaped(arrays, image) && There(arrays, ci, b)
    ensures arrays[ci][b].Length == 64 && arrays[ci][b] in Footprint(arrays)
  {
  }

  lemma PairApart(s: Scan, n: nat, arrays: Arrays, image: Image, il: Interleaving, k: nat, l: nat)
    requires IndexesOk(s, n) && Shaped(arrays, image) && Within(s, arrays, il) && k < l < |il| && il[k] != il[l]
    ensures Pick(s, arrays, il)[k] != Pick(s, arrays, il)[l]
  {
    hide IndexesOk;
    Ascending(s, n);
    var a, b := il[k], il[l];
    if a.0 == b.0 { assert a.1 != b.1; } else { assert s.comps[a.0] != s.comps[b.0]; }
  }

  lemma CoversToo(x: Pass, orig: Image, dec: Image)
    requires SameShape(orig, dec) && AllCover(x.scan, orig, x.segs)
    ensures AllCover(x.scan, dec, x.segs)
  {
    forall i | 0 <= i < |x.segs| ensures Covers(x.scan, dec, x.segs[i]) { assert Covers(x.scan, orig, x.segs[i]); }
  }

  /** What is listed is where the interleaving says; what is not listed belongs to other components. */
  lemma ListedAt(s: Scan, arrays: Arrays, image: Image, il: Interleaving, ci: nat, b: nat) returns (k: nat)
    requires Shaped(arrays, image) && Lists(s, image, il) && There(arrays, ci, b) && ci in s.comps && |s.comps| <= MAX_COMPS_IN_SCAN
    requires Within(s, arrays, il)
    ensures k < |il| && s.comps[il[k].0] == ci && il[k].1 == b && Pick(s, arrays, il)[k] == arrays[ci][b]
  {
    var c: component :| c < |s.comps| && s.comps[c] == ci;
    assert (c, b) in il;
    k :| k < |il| && il[k] == (c, b);
  }

  lemma NotListed(s: Scan, arrays: Arrays, image: Image, il: Interleaving, ci: nat, b: nat)
    requires Shaped(arrays, image) && Within(s, arrays, il) && There(arrays, ci, b) && ci !in s.comps
    ensures arrays[ci][b] !in Pick(s, arrays, il)
  {
    forall k | 0 <= k < |il| ensures Pick(s, arrays, il)[k] != arrays[ci][b] {
      assert There(arrays, s.comps[il[k].0], il[k].1);
    }
  }

  lemma AcMeant(x: Pass, orig: Image, dec: Image, t: seq<byte>, k: nat)
    requires Suits(x.coding, x.scan) && x.scan.ss > 0 && SameShape(orig, dec)
    requires AllCover(x.scan, orig, x.segs) && AllCover(x.scan, dec, x.segs) && k < |Joined(x.segs)|
    ensures var s, il := x.scan, Joined(x.segs);
      && il[k].0 < |s.comps| && 0 <= s.comps[il[k].0] < |orig| && il[k].1 < |orig[s.comps[il[k].0]]|
      && |Joined(AcScript(x, orig, dec, t).zss)| == |Joined(AcScript(x, orig, dec, t).befores)| == |il|
      && Joined(AcScript(x, orig, dec, t).befores)[k] == dec[s.comps[il[k].0]][il[k].1]
      && D.Meant(x.coding.p, AcScript(x, orig, dec, t), k) == ImageAfter(s, orig, dec)[s.comps[il[k].0]][il[k].1]
  {
    hide Legal, Improve, Joined;
    JoinedCovers(x.scan, orig, x.segs);
    JoinedCovers(x.scan, dec, x.segs);
  }

  lemma AcLengths(x: Pass, orig: Image, dec: Image, t: seq<byte>)
    requires AllCover(x.scan, orig, x.segs) && AllCover(x.scan, dec, x.segs)
    ensures |Joined(AcScript(x, orig, dec, t).zss)| == |Joined(AcScript(x, orig, dec, t).befores)| == |Joined(x.segs)|
  {
    hide Joined;
    JoinedCovers(x.scan, orig, x.segs);
    JoinedCovers(x.scan, dec, x.segs);
  }

  lemma LegalTyped(h: Table)
    requires Legal(h)
    ensures WellTyped(h) && DecoderLegal(h, false)
  {
  }

  /** One AC scan, in any pieces, from the arrays that hold dec to arrays that hold the image after the scan. */
  method ReadAcScan(x: Pass, order: seq<nat>, restartInterval: nat, chunks: seq<seq<byte>>, arrays: Arrays,
                    ghost bits: Positions, ghost orig: Image, ghost dec: Image, ghost t: seq<byte>)
    requires NaturalOrder(order) && restartInterval < 0x1_0000 && Divided(Sizes(x.segs), restartInterval)
    requires ScanOk(x.scan, bits) && ImageReached(bits, orig, dec) && x.scan.ss > 0 && x.Sent(orig)
    requires Joined(chunks) == x.Data(orig) + t
    requires Shaped(arrays, orig) && Shaped(arrays, dec) && Represents(order, arrays, dec)
    modifies Footprint(arrays)
    ensures Shaped(arrays, ImageAfter(x.scan, orig, dec)) && Represents(order, arrays, ImageAfter(x.scan, orig, dec))
  {
    hide Legal, NaturalOrder, Zigzag, ImageReached, ImageAfter, Lists, Sendable, Joined, Divided, P.Coded, D.Meant, Pass.Data, ScanBytes, BlockReached, RowOk;
    var s, il := x.scan, Joined(x.segs);
    CoversToo(x, orig, dec);
    AcPass(x, bits, orig, dec, t, restartInterval);
    Picked(s, |bits|, arrays, orig, il);
    var blocks := Pick(s, arrays, il);
    LegalTyped(x.coding.h);
    var dt := MakeDDerivedTbl(x.coding.h, false);
    ghost var script := AcScript(x, orig, dec, t);
    assert [] + Joined(chunks) == Joined(chunks);
    AcLengths(x, orig, dec, t);
    forall k | 0 <= k < |blocks| ensures Zigzag(order, blocks[k][..]) == Joined(script.befores)[k] {
      AcMeant(x, orig, dec, t, k);
      assert There(arrays, s.comps[il[k].0], il[k].1);
    }
    D.ConsumeScan(dt.value, x.coding.p, order, restartInterval, [], chunks, blocks, script);
    var after := ImageAfter(s, orig, dec);
    forall ci, b | There(arrays, ci, b) ensures Zigzag(order, arrays[ci][b][..]) == after[ci][b] {
      if ci in s.comps {
        var k := ListedAt(s, arrays, orig, il, ci, b);
        AcMeant(x, orig, dec, t, k);
      } else {
        NotListed(s, arrays, orig, il, ci, b);
        Untouched(s, orig, dec, ci);
      }
    }
  }

  lemma Untouched(s: Scan, orig: Image, dec: Image, ci: nat)
    requires ParametersOk(s) && SameShape(orig, dec) && ci < |orig| && ci !in s.comps
    ensures ImageAfter(s, orig, dec)[ci] == dec[ci]
  {
  }

  // ---------- a DC scan ----------

  /** The MCUs of each segment: the blocks of each are those that the membership of the scan asks for. */
  ghost predicate InMcus(x: Pass, mcus: seq<seq<Interleaving>>) {
    && x.coding.Dc? && |mcus| == |x.segs|
    && (forall i :: 0 <= i < |mcus| ==> x.segs[i] == Joined(mcus[i]))
    && forall i, j :: 0 <= i < |mcus| && 0 <= j < |mcus[i]| ==> OneMcu(x.coding.c, mcus[i][j])
  }

  predicate OneMcu(c: Coder, m: Interleaving) {
    |m| == |c.membership| && forall b :: 0 <= b < |m| ==> m[b].0 == c.membership[b]
  }

  function ItemLists(s: Scan, image: Image, ms: seq<Interleaving>): (r: seq<Mcu>)
    requires AllCover(s, image, ms)
    ensures |r| == |ms|
  {
    seq(|ms|, j requires 0 <= j < |ms| => Items(s, image, ms[j]))
  }

  ghost predicate EveryCover(s: Scan, image: Image, mcus: seq<seq<Interleaving>>) {
    forall i :: 0 <= i < |mcus| ==> AllCover(s, image, mcus[i])
  }

  ghost function McuLists(s: Scan, image: Image, mcus: seq<seq<Interleaving>>): (r: seq<seq<Mcu>>)
    requires EveryCover(s, image, mcus)
    ensures |r| == |mcus|
  {
    seq(|mcus|, i requires 0 <= i < |mcus| => ItemLists(s, image, mcus[i]))
  }

  /** A DC scan as the decoder object knows it. */
  ghost function DcScript(x: Pass, orig: Image, dec: Image, mcus: seq<seq<Interleaving>>, t: seq<byte>): H.Script
    requires EveryCover(x.scan, orig, mcus) && EveryCover(x.scan, dec, mcus)
  {
    H.Script(McuLists(x.scan, orig, mcus), McuLists(x.scan, dec, mcus), x.next, x.header + t)
  }

  lemma {:induction false} FlatItems(s: Scan, image: Image, ms: seq<Interleaving>)
    requires AllCover(s, image, ms)
    ensures Covers(s, image, Joined(ms)) && Flat(ItemLists(s, image, ms)) == Items(s, image, Joined(ms))
    decreases |ms|
  {
    if ms != [] {
      var n := |ms| - 1;
      FlatItems(s, image, ms[..n]);
      assert ItemLists(s, image, ms)[..n] == ItemLists(s, image, ms[..n]);
      assert Covers(s, image, ms[n]);
      assert Items(s, image, Joined(ms[..n]) + ms[n]) == Items(s, image, Joined(ms[..n])) + Items(s, image, ms[n]);
    }
  }

  lemma PartCovers(s: Scan, image: Image, ms: seq<Interleaving>)
    requires Covers(s, image, Joined(ms))
    ensures AllCover(s, image, ms)
  {
    hide Joined;
    forall j | 0 <= j < |ms| ensures Covers(s, image, ms[j]) {
      forall b | 0 <= b < |ms[j]| ensures ms[j][b].0 < |s.comps| && 0 <= s.comps[ms[j][b].0] < |image| && ms[j][b].1 < |image[s.comps[ms[j][b].0]]| {
        PositionAt(ms, j, b);
      }
    }
  }

  lemma AllPartsCover(x: Pass, image: Image, mcus: seq<seq<Interleaving>>)
    requires InMcus(x, mcus) && AllCover(x.scan, image, x.segs)
    ensures EveryCover(x.scan, image, mcus)
  {
    forall i | 0 <= i < |mcus| ensures AllCover(x.scan, image, mcus[i]) {
      assert Covers(x.scan, image, x.segs[i]);
      PartCovers(x.scan, image, mcus[i]);
    }
  }

  lemma DcReady(x: Pass, bits: Positions, orig: Image, dec: Image, m: Interleaving)
    requires ScanOk(x.scan, bits) && ImageReached(bits, orig, dec) && x.scan.ss == 0 && Suits(x.coding, x.scan)
    requires Covers(x.scan, orig, m) && Covers(x.scan, dec, m)
    ensures ItemsReady(x.coding.c, Items(x.scan, dec, m), Items(x.scan, orig, m))
  {
    hide Legal, SmallSymbols, BlockReached, RowOk, ItemReady, ImageAfter;
    ScanStep(x.scan, bits, orig, dec);
    var s := x.scan;
    forall k | 0 <= k < |m| ensures ItemReady(x.coding.c.mode, Items(s, dec, m)[k].z, Items(s, orig, m)[k].z) {
      assert BlockReady(s, dec[s.comps[m[k].0]][m[k].1], orig[s.comps[m[k].0]][m[k].1]);
    }
  }

  /** The bytes of the file at a DC scan are the coded scan that the decoder object expects. */
  lemma DcPass(x: Pass, bits: Positions, orig: Image, dec: Image, mcus: seq<seq<Interleaving>>, t: seq<byte>, restartInterval: nat)
    requires ScanOk(x.scan, bits) && ImageReached(bits, orig, dec) && x.scan.ss == 0 && x.Sent(orig) && InMcus(x, mcus)
    requires EveryCover(x.scan, orig, mcus) && EveryCover(x.scan, dec, mcus) && Divided(Sizes(mcus), restartInterval)
    ensures var c, s := x.coding.c, DcScript(x, orig, dec, mcus, t);
      && H.Coded(c, s, restartInterval)
      && x.Data(orig) + t == ScanBytes(McuSegments(c, s.zss)) + ([0xFF, s.next] + s.after)
  {
    hide Legal, SmallSymbols, SendAll, ScanBytes, Lists, ItemsReady, BlockReached, RowOk, Flat, Joined;
    var c, s := x.coding.c, DcScript(x, orig, dec, mcus, t);
    forall i | 0 <= i < |s.zss| ensures |s.befores[i]| == |s.zss[i]| == Sizes(mcus)[i] && SendAll(c, Flat(s.zss[i])).ok {
      FlatItems(x.scan, orig, mcus[i]);
      assert SendSegment(x.coding, Items(x.scan, orig, x.segs[i])).0;
    }
    forall i, j | 0 <= i < |s.zss| && 0 <= j < |s.zss[i]| ensures ItemsReady(c, s.befores[i][j], s.zss[i][j]) {
      assert Covers(x.scan, orig, mcus[i][j]) && Covers(x.scan, dec, mcus[i][j]);
      DcReady(x, bits, orig, dec, mcus[i][j]);
    }
    forall i | 0 <= i < |s.zss| ensures McuSegments(c, s.zss)[i] == Segs(x.coding, x.scan, orig, x.segs)[i] {
      FlatItems(x.scan, orig, mcus[i]);
    }
    assert McuSegments(c, s.zss) == Segs(x.coding, x.scan, orig, x.segs);
    assert ScanBytes(Segs(x.coding, x.scan, orig, x.segs)) + ([0xFF, x.next] + x.header) + t == ScanBytes(McuSegments(c, s.zss)) + ([0xFF, s.next] + s.after);
  }

  lemma {:induction false} JoinedLists(s: Scan, image: Image, mcus: seq<seq<Interleaving>>)
    requires EveryCover(s, image, mcus)
    ensures AllCover(s, image, Joined(mcus)) && Joined(McuLists(s, image, mcus)) == ItemLists(s, image, Joined(mcus))
    decreases |mcus|
  {
    if mcus != [] {
      var n := |mcus| - 1;
      JoinedLists(s, image, mcus[..n]);
      assert McuLists(s, image, mcus)[..n] == McuLists(s, image, mcus[..n]);
      assert AllCover(s, image, mcus[n]);
      assert ItemLists(s, image, Joined(mcus[..n]) + mcus[n]) == ItemLists(s, image, Joined(mcus[..n])) + ItemLists(s, image, mcus[n]);
    }
  }

  lemma {:induction false} JoinedTwice(segs: seq<Interleaving>, mcus: seq<seq<Interleaving>>)
    requires |segs| == |mcus| && forall i :: 0 <= i < |segs| ==> segs[i] == Joined(mcus[i])
    ensures Joined(segs) == Joined(Joined(mcus))
    decreases |segs|
  {
    if segs != [] {
      var n := |segs| - 1;
      JoinedTwice(segs[..n], mcus[..n]);
      JoinedAppend(Joined(mcus[..n]), mcus[n]);
    }
  }

  /** The arrays of every MCU. */
  function PickMcus(s: Scan, arrays: Arrays, all: seq<Interleaving>): (r: seq<seq<array<int>>>)
    requires forall k :: 0 <= k < |all| ==> Within(s, arrays, all[k])
    ensures |r| == |all|
  {
    seq(|all|, k requires 0 <= k < |all| => Pick(s, arrays, all[k]))
  }

  lemma EntriesApart(s: Scan, n: nat, arrays: Arrays, image: Image, x: (component, nat), y: (component, nat))
    requires IndexesOk(s, n) && Shaped(arrays, image) && x != y
    requires x.0 < |s.comps| && y.0 < |s.comps| && There(arrays, s.comps[x.0], x.1) && There(arrays, s.comps[y.0], y.1)
    ensures arrays[s.comps[x.0]][x.1] != arrays[s.comps[y.0]][y.1]
  {
    hide IndexesOk;
    Ascending(s, n);
    if x.0 == y.0 { assert x.1 != y.1; } else { assert s.comps[x.0] != s.comps[y.0]; }
  }

  /** The arrays of the MCUs are all different. */
  lemma McusPicked(c: Coder, s: Scan, n: nat, arrays: Arrays, image: Image, all: seq<Interleaving>)
    requires IndexesOk(s, n) && Shaped(arrays, image) && Lists(s, image, Joined(all)) && forall k :: 0 <= k < |all| ==> OneMcu(c, all[k])
    ensures forall k :: 0 <= k < |all| ==> Within(s, arrays, all[k])
    ensures var mcus := PickMcus(s, arrays, all);
      && (forall k :: 0 <= k < |mcus| ==> M.Mcu64(c, mcus[k]))
      && (forall k, l, a, b :: 0 <= k < l < |mcus| && 0 <= a < |mcus[k]| && 0 <= b < |mcus[l]| ==> mcus[k][a] != mcus[l][b])
      && forall k, a :: 0 <= k < |mcus| && 0 <= a < |mcus[k]| ==> mcus[k][a] in Footprint(arrays)
  {
    hide Shaped, IndexesOk, Joined;
    forall k | 0 <= k < |all| ensures Within(s, arrays, all[k]) {
      PartCovers(s, image, all);
      CoversWithin(s, arrays, image, all[k]);
    }
    var mcus := PickMcus(s, arrays, all);
    forall k | 0 <= k < |mcus| ensures M.Mcu64(c, mcus[k]) {
      forall a | 0 <= a < |mcus[k]| ensures mcus[k][a].Length == 64 { OfShape(arrays, image, s.comps[all[k][a].0], all[k][a].1); }
      forall a, b | 0 <= a < b < |mcus[k]| ensures mcus[k][a] != mcus[k][b] { McuEntries(s, n, arrays, image, all, k, a, k, b); }
    }
    forall k, l, a, b | 0 <= k < l < |mcus| && 0 <= a < |mcus[k]| && 0 <= b < |mcus[l]| ensures mcus[k][a] != mcus[l][b] {
      McuEntries(s, n, arrays, image, all, k, a, l, b);
    }
    forall k, a | 0 <= k < |mcus| && 0 <= a < |mcus[k]| ensures mcus[k][a] in Footprint(arrays) {
      OfShape(arrays, image, s.comps[all[k][a].0], all[k][a].1);
    }
  }

  lemma McuEntries(s: Scan, n: nat, arrays: Arrays, image: Image, all: seq<Interleaving>, k: nat, a: nat, l: nat, b: nat)
    requires IndexesOk(s, n) && Shaped(arrays, image) && Lists(s, image, Joined(all)) && forall k :: 0 <= k < |all| ==> Within(s, arrays, all[k])
    requires k < |all| && a < |all[k]| && l < |all| && b < |all[l]| && (k != l || a != b)
    ensures Pick(s, arrays, all[k])[a] != Pick(s, arrays, all[l])[b]
  {
    hide Shaped, IndexesOk, Joined, Position;
    PositionAt(all, k, a);
    PositionAt(all, l, b);
    PositionsApart(all, k, a, l, b);
    EntriesApart(s, n, arrays, image, all[k][a], all[l][b]);
  }

  /** Derived tables for all components of a scan. */
  method MakeTables(hs: seq<Table>, isDC: bool) returns (tbls: seq<DDerived>)
    requires |hs| == MAX_COMPS_IN_SCAN && forall i :: 0 <= i < |hs| ==> Legal(hs[i]) && (isDC ==> SmallSymbols(hs[i]))
    ensures |tbls| == |hs| && forall i :: 0 <= i < |hs| ==> Decodes(hs[i], tbls[i])
  {
    hide Decodes, Legal;
    tbls := [];
    for i := 0 to |hs|
      invariant |tbls| == i && forall k :: 0 <= k < i ==> Decodes(hs[k], tbls[k])
    {
      LegalTyped(hs[i]);
      var dt := MakeDDerivedTbl(hs[i], isDC);
      tbls := tbls + [dt.value];
    }
  }

  /** An MCU in its arrays. */
  lemma McuHeld(c: Coder, order: seq<nat>, s: Scan, arrays: Arrays, image: Image, m: Interleaving)
    requires NaturalOrder(order) && Shaped(arrays, image) && Within(s, arrays, m) && OneMcu(c, m) && M.Mcu64(c, Pick(s, arrays, m)) && Covers(s, image, m)
    requires Represents(order, arrays, image)
    ensures M.Held(c, order, Pick(s, arrays, m)) == Items(s, image, m)
  {
    hide NaturalOrder, Zigzag;
    var blocks := Pick(s, arrays, m);
    forall b | 0 <= b < |m| ensures M.Held(c, order, blocks)[b] == Items(s, image, m)[b] {
      assert There(arrays, s.comps[m[b].0], m[b].1);
    }
  }

  /** ... and what has been read into them. */
  lemma McuRead(c: Coder, order: seq<nat>, blocks: seq<array<int>>, b: nat)
    requires NaturalOrder(order) && M.Mcu64(c, blocks) && b < |blocks|
    ensures |Blocks(M.Held(c, order, blocks))| == |blocks| && Blocks(M.Held(c, order, blocks))[b] == Zigzag(order, blocks[b][..])
  {
    hide NaturalOrder, Zigzag;
  }

  lemma DcMeant(x: Pass, orig: Image, dec: Image, m: Interleaving, b: nat)
    requires Suits(x.coding, x.scan) && x.scan.ss == 0 && SameShape(orig, dec) && Covers(x.scan, orig, m) && Covers(x.scan, dec, m) && b < |m|
    requires m[b].0 < |x.scan.comps|
    ensures ItemsAfter(x.coding.c, Items(x.scan, dec, m), Items(x.scan, orig, m))[b]
         == ImageAfter(x.scan, orig, dec)[x.scan.comps[m[b].0]][m[b].1]
  {
    hide Legal, SmallSymbols, ItemAfter;
  }

  lemma DcLists(x: Pass, orig: Image, dec: Image, mcus: seq<seq<Interleaving>>, t: seq<byte>)
    requires EveryCover(x.scan, orig, mcus) && EveryCover(x.scan, dec, mcus)
    ensures var all, s := Joined(mcus), DcScript(x, orig, dec, mcus, t);
      && AllCover(x.scan, orig, all) && AllCover(x.scan, dec, all) && |Joined(s.zss)| == |Joined(s.befores)| == |all|
      && forall k :: 0 <= k < |all| ==> Joined(s.zss)[k] == Items(x.scan, orig, all[k]) && Joined(s.befores)[k] == Items(x.scan, dec, all[k])
  {
    hide Joined;
    JoinedLists(x.scan, orig, mcus);
    JoinedLists(x.scan, dec, mcus);
  }

  lemma {:induction false} AllOneMcu(c: Coder, mcus: seq<seq<Interleaving>>)
    requires forall i, j :: 0 <= i < |mcus| && 0 <= j < |mcus[i]| ==> OneMcu(c, mcus[i][j])
    ensures forall k :: 0 <= k < |Joined(mcus)| ==> OneMcu(c, Joined(mcus)[k])
  {
    hide OneMcu;
    if mcus != [] {
      var n := |mcus| - 1;
      AllOneMcu(c, mcus[..n]);
      forall j | 0 <= j < |mcus[n]| ensures OneMcu(c, mcus[n][j]) {}
    }
  }

  lemma ShapedSizes(arrays: Arrays, image: Image)
    requires Shaped(arrays, image)
    ensures |arrays| == |image| && forall ci :: 0 <= ci < |arrays| ==> |arrays[ci]| == |image[ci]|
    ensures forall ci, b :: There(arrays, ci, b) ==> arrays[ci][b].Length == 64
  {
  }

  lemma NotPicked(s: Scan, arrays: Arrays, image: Image, all: seq<Interleaving>, ci: nat, b: nat)
    requires Shaped(arrays, image) && There(arrays, ci, b) && ci !in s.comps && forall k :: 0 <= k < |all| ==> Within(s, arrays, all[k])
    ensures var blocks := PickMcus(s, arrays, all);
      forall k, a :: 0 <= k < |blocks| && 0 <= a < |blocks[k]| ==> blocks[k][a] != arrays[ci][b]
  {
    hide Shaped;
    var blocks := PickMcus(s, arrays, all);
    forall k, a | 0 <= k < |blocks| && 0 <= a < |blocks[k]| ensures blocks[k][a] != arrays[ci][b] {
      NotListed(s, arrays, image, all[k], ci, b);
      assert Pick(s, arrays, all[k])[a] in Pick(s, arrays, all[k]);
    }
  }

  /** The block of a component of the scan, by MCU. */
  lemma DcBlock(x: Pass, order: seq<nat>, arrays: Arrays, all: seq<Interleaving>, orig: Image, dec: Image, script: H.Script, ci: nat, b: nat)
    requires NaturalOrder(order) && Suits(x.coding, x.scan) && x.scan.ss == 0 && SameShape(orig, dec) && Shaped(arrays, orig)
    requires |x.scan.comps| <= MAX_COMPS_IN_SCAN && Lists(x.scan, orig, Joined(all))
    requires AllCover(x.scan, orig, all) && AllCover(x.scan, dec, all) && |Joined(script.zss)| == |Joined(script.befores)| == |all|
    requires forall k :: 0 <= k < |all| ==> Joined(script.zss)[k] == Items(x.scan, orig, all[k]) && Joined(script.befores)[k] == Items(x.scan, dec, all[k])
    requires forall k :: 0 <= k < |all| ==> Within(x.scan, arrays, all[k])
    requires forall k :: 0 <= k < |all| ==> M.Mcu64(x.coding.c, Pick(x.scan, arrays, all[k]))
    requires forall k :: 0 <= k < |all| ==> M.AsMeant(x.coding.c, script, k, M.Held(x.coding.c, order, Pick(x.scan, arrays, all[k])))
    requires There(arrays, ci, b) && ci in x.scan.comps
    ensures Zigzag(order, arrays[ci][b][..]) == ImageAfter(x.scan, orig, dec)[ci][b]
  {
    hide Legal, SmallSymbols, NaturalOrder, Zigzag, ImageAfter, Joined, M.Held, M.Mcu64, ItemsAfter, Blocks, Items, DcMode, Shaped;
    var s, c := x.scan, x.coding.c;
    var e := ListedEntry(s, arrays, orig, Joined(all), ci, b);
    var k, a := JoinedFind(all, e);
    var blocks := Pick(s, arrays, all[k]);
    assert Covers(s, orig, all[k]) && Covers(s, dec, all[k]);
    McuRead(c, order, blocks, a);
    DcMeant(x, orig, dec, all[k], a);
    assert M.AsMeant(c, script, k, M.Held(c, order, blocks));
  }

  lemma ListedEntry(s: Scan, arrays: Arrays, image: Image, il: Interleaving, ci: nat, b: nat) returns (e: (component, nat))
    requires Shaped(arrays, image) && Lists(s, image, il) && There(arrays, ci, b) && ci in s.comps && |s.comps| <= MAX_COMPS_IN_SCAN
    ensures e in il && e.0 < |s.comps| && s.comps[e.0] == ci && e.1 == b
  {
    var c: component :| c < |s.comps| && s.comps[c] == ci;
    e := (c, b);
  }

  lemma DcRepresents(x: Pass, order: seq<nat>, arrays: Arrays, all: seq<Interleaving>, orig: Image, dec: Image, script: H.Script)
    requires NaturalOrder(order) && Suits(x.coding, x.scan) && x.scan.ss == 0 && SameShape(orig, dec) && Shaped(arrays, orig)
    requires |x.scan.comps| <= MAX_COMPS_IN_SCAN && Lists(x.scan, orig, Joined(all))
    requires AllCover(x.scan, orig, all) && AllCover(x.scan, dec, all) && |Joined(script.zss)| == |Joined(script.befores)| == |all|
    requires forall k :: 0 <= k < |all| ==> Joined(script.zss)[k] == Items(x.scan, orig, all[k]) && Joined(script.befores)[k] == Items(x.scan, dec, all[k])
    requires forall k :: 0 <= k < |all| ==> Within(x.scan, arrays, all[k])
    requires forall k :: 0 <= k < |all| ==> M.Mcu64(x.coding.c, PickMcus(x.scan, arrays, all)[k])
    requires forall k :: 0 <= k < |all| ==> M.AsMeant(x.coding.c, script, k, M.Held(x.coding.c, order, PickMcus(x.scan, arrays, all)[k]))
    requires forall ci, b :: There(arrays, ci, b) && ci !in x.scan.comps ==> Zigzag(order, arrays[ci][b][..]) == dec[ci][b]
    ensures Shaped(arrays, ImageAfter(x.scan, orig, dec)) && Represents(order, arrays, ImageAfter(x.scan, orig, dec))
  {
    hide Legal, SmallSymbols, NaturalOrder, Zigzag, ImageAfter, Joined, M.Held, M.Mcu64, M.AsMeant, Items, DcMode, Lists;
    var after := ImageAfter(x.scan, orig, dec);
    forall k | 0 <= k < |all| ensures PickMcus(x.scan, arrays, all)[k] == Pick(x.scan, arrays, all[k]) { PickedMcu(x.scan, arrays, all, k); }
    forall ci, b | There(arrays, ci, b) ensures Zigzag(order, arrays[ci][b][..]) == after[ci][b] {
      if ci in x.scan.comps {
        DcBlock(x, order, arrays, all, orig, dec, script, ci, b);
      } else {
        Untouched(x.scan, orig, dec, ci);
      }
    }
  }

  /** One DC scan, in any pieces, from the arrays that hold dec to arrays that hold the image after the scan. */
  method ReadDcScan(x: Pass, mcus: seq<seq<Interleaving>>, order: seq<nat>, restartInterval: nat, chunks: seq<seq<byte>>, arrays: Arrays,
                    ghost bits: Positions, ghost orig: Image, ghost dec: Image, ghost t: seq<byte>)
    requires NaturalOrder(order) && restartInterval < 0x1_0000 && Divided(Sizes(mcus), restartInterval)
    requires ScanOk(x.scan, bits) && ImageReached(bits, orig, dec) && x.scan.ss == 0 && x.Sent(orig) && InMcus(x, mcus)
    requires Joined(chunks) == x.Data(orig) + t
    requires Shaped(arrays, orig) && Shaped(arrays, dec) && Represents(order, arrays, dec)
    modifies Footprint(arrays)
    ensures Shaped(arrays, ImageAfter(x.scan, orig, dec)) && Represents(order, arrays, ImageAfter(x.scan, orig, dec))
  {
    hide Legal, SmallSymbols, NaturalOrder, Zigzag, ImageReached, ImageAfter, Lists, Sendable, Joined, Divided, H.Coded, M.AsMeant, M.Held, M.Mcu64, Pass.Data,
      ScanBytes, BlockReached, RowOk, Shaped, OneMcu, Footprint, Within, PickMcus, DcScript;
    var s, c, all := x.scan, x.coding.c, Joined(mcus);
    ShapedSizes(arrays, orig);
    ShapedSizes(arrays, dec);
    CoversToo(x, orig, dec);
    AllPartsCover(x, orig, mcus);
    AllPartsCover(x, dec, mcus);
    DcPass(x, bits, orig, dec, mcus, t, restartInterval);
    JoinedTwice(x.segs, mcus);
    AllOneMcu(c, mcus);
    McusPicked(c, s, |bits|, arrays, orig, all);
    var blocks := PickMcus(s, arrays, all);
    DcLists(x, orig, dec, mcus, t);
    var dcTbls := MakeTables(c.dc, true);
    var acTbls := MakeTables(c.ac, false);
    ghost var script := DcScript(x, orig, dec, mcus, t);
    assert [] + Joined(chunks) == Joined(chunks);
    forall k | 0 <= k < |blocks| ensures M.Held(c, order, blocks[k]) == Joined(script.befores)[k] {
      PickedMcu(s, arrays, all, k);
      McuHeld(c, order, s, arrays, dec, all[k]);
    }
    M.ConsumeScan(c, dcTbls, acTbls, order, restartInterval, [], chunks, blocks, script);
    forall ci, b | There(arrays, ci, b) && ci !in s.comps ensures Zigzag(order, arrays[ci][b][..]) == dec[ci][b] {
      NotPicked(s, arrays, orig, all, ci, b);
    }
    DcRepresents(x, order, arrays, all, orig, dec, script);
  }

  lemma PickedMcu(s: Scan, arrays: Arrays, all: seq<Interleaving>, k: nat)
    requires k < |all| && forall k :: 0 <= k < |all| ==> Within(s, arrays, all[k])
    ensures PickMcus(s, arrays, all)[k] == Pick(s, arrays, all[k])
  {
  }

  // ---------- the whole file ----------

  /** How a scan reaches the decoder: its MCUs if it is a DC scan, the restart interval, and the pieces in which
      its bytes, and some that follow, arrive. */
  datatype Arrival = Arrival(mcus: seq<seq<Interleaving>>, restartInterval: nat, chunks: seq<seq<byte>>)

  ghost predicate Arrives(x: Pass, a: Arrival, orig: Image)
    requires x.Fits(orig)
  {
    && a.restartInterval < 0x1_0000 && x.Data(orig) <= Joined(a.chunks)
    && if x.scan.ss == 0 then InMcus(x, a.mcus) && Divided(Sizes(a.mcus), a.restartInterval) else Divided(Sizes(x.segs), a.restartInterval)
  }

  lemma ScanPlausible(s: Scan, bits: Positions)
    requires ScanOk(s, bits)
    ensures Plausible(s, |bits|)
  {
    hide RowOk;
    Ascending(s, |bits|);
  }

  /** One scan: the decoder's checks, then its data. */
  method ReadPass(x: Pass, a: Arrival, order: seq<nat>, coefBits: array2<int>, arrays: Arrays, ghost bits: Positions, ghost orig: Image, ghost dec: Image)
    returns (bad: bool, warnings: nat)
    requires NaturalOrder(order) && ScanOk(x.scan, bits) && ImageReached(bits, orig, dec) && x.Sent(orig) && Arrives(x, a, orig)
    requires Shaped(arrays, orig) && Shaped(arrays, dec) && Represents(order, arrays, dec) && ScanScript.Holds(coefBits, bits)
    modifies coefBits, Footprint(arrays)
    ensures !bad && warnings == 0 && ScanScript.Holds(coefBits, BitsAfter(x.scan, bits))
    ensures Shaped(arrays, ImageAfter(x.scan, orig, dec)) && Represents(order, arrays, ImageAfter(x.scan, orig, dec))
  {
    hide NaturalOrder, Zigzag, ImageReached, ImageAfter, BitsAfter, Lists, Sendable, Joined, Divided, InMcus, Suits, ScanOk, Shaped, Footprint, Pass.Data;
    ScanPlausible(x.scan, bits);
    bad, warnings := StartPass(x.scan, coefBits, bits);
    ghost var t := Joined(a.chunks)[|x.Data(orig)|..];
    assert Joined(a.chunks) == x.Data(orig) + t;
    if x.scan.ss == 0 {
      ReadDcScan(x, a.mcus, order, a.restartInterval, a.chunks, arrays, bits, orig, dec, t);
    } else {
      NotNegative(x.scan, bits);
      ReadAcScan(x, order, a.restartInterval, a.chunks, arrays, bits, orig, dec, t);
    }
  }

  lemma NotNegative(s: Scan, bits: Positions)
    requires ScanOk(s, bits)
    ensures s.ss >= 0
  {
    hide RowOk;
  }

  /** A progressive file: the decoder's checks pass without a warning from the first scan to the last, and the
      arrays end with every coefficient at the precision that the scans have reached. */
  method DecodeFile(passes: seq<Pass>, arrivals: seq<Arrival>, order: seq<nat>, coefBits: array2<int>, arrays: Arrays, ghost orig: Image)
    returns (bad: bool, warnings: nat)
    requires NaturalOrder(order) && Run(|orig|, Scans(passes)).Some? && AllSent(passes, orig) && |arrivals| == |passes|
    requires forall i :: 0 <= i < |passes| ==> Arrives(passes[i], arrivals[i], orig)
    requires Shaped(arrays, orig) && Shaped(arrays, Cleared(orig)) && Represents(order, arrays, Cleared(orig)) && ScanScript.Holds(coefBits, Unsent(|orig|))
    modifies coefBits, Footprint(arrays)
    ensures !bad && warnings == 0 && ScanScript.Holds(coefBits, Run(|orig|, Scans(passes)).value)
    ensures Shaped(arrays, Achieved(orig, Scans(passes))) && Represents(order, arrays, Achieved(orig, Scans(passes)))
    ensures ImageReached(Run(|orig|, Scans(passes)).value, orig, Achieved(orig, Scans(passes)))
    ensures ArraysNear(order, arrays, orig, Scans(passes))
  {
    hide NaturalOrder, ImageReached, ImageAfter, BitsAfter, ScanOk, Shaped, Footprint, Run, Achieved, Pass.Sent, Pass.Fits, Arrives, Represents, ArraysNear;
    ghost var scans := Scans(passes);
    bad, warnings := false, 0;
    AchievedNone(orig);
    NothingRun(|orig|);
    assert scans[..0] == [];
    for i := 0 to |passes|
      invariant !bad && warnings == 0 && Run(|orig|, scans[..i]).Some? && ScanScript.Holds(coefBits, Run(|orig|, scans[..i]).value)
      invariant Shaped(arrays, Achieved(orig, scans[..i])) && Represents(order, arrays, Achieved(orig, scans[..i]))
    {
      RunPrefix(|orig|, scans, i);
      PrecisionReached(orig, scans[..i]);
      AchievedNext(orig, scans, i);
      var more;
      bad, more := ReadPass(passes[i], arrivals[i], order, coefBits, arrays, Run(|orig|, scans[..i]).value, orig, Achieved(orig, scans[..i]));
      warnings := warnings + more;
    }
    assert scans[..|scans|] == scans;
    PrecisionReached(orig, scans);
    NearArrays(order, arrays, orig, scans);
  }

  lemma NearArrays(order: seq<nat>, arrays: Arrays, orig: Image, scans: seq<Scan>)
    requires NaturalOrder(order) && Run(|orig|, scans).Some? && Shaped(arrays, orig) && Shaped(arrays, Achieved(orig, scans))
    requires Represents(order, arrays, Achieved(orig, scans))
    ensures ArraysNear(order, arrays, orig, scans)
  {
    hide NaturalOrder, Run, Achieved, Near, NearAt, LastAl, Zigzag, Footprint;
    ImageNear(orig, scans);
    var dec := Achieved(orig, scans);
    forall ci, b, k: nat | There(arrays, ci, b) && k < 64
      ensures NearAt(order, arrays[ci][b][..], orig[ci][b], LastAl(scans, ci, k), k)
    {
      assert Zigzag(order, arrays[ci][b][..]) == dec[ci][b];
      NearBlock(order, arrays[ci][b][..], orig[ci][b], dec[ci][b], LastAl(scans, ci, k), k);
    }
  }

  lemma NearBlock(order: seq<nat>, block: seq<int>, z: Block, w: Block, p: int, k: nat)
    requires NaturalOrder(order) && |block| == 64 && Zigzag(order, block) == w && k < 64 && Near(k, p, z[k], w[k])
    ensures NearAt(order, block, z, p, k)
  {
    hide Near, Zigzag;
    ZigzagAt(order, block, k);
  }

  /** A file made with either script of jpeg_simple_progression: the arrays end with the original. */
  method DecodeSimple(ncomps: nat, ycc: bool, passes: seq<Pass>, arrivals: seq<Arrival>, order: seq<nat>, coefBits: array2<int>, arrays: Arrays,
                      ghost orig: Image)
    returns (bad: bool, warnings: nat)
    requires 0 < ncomps == |orig| && Scans(passes) == if ncomps == 3 && ycc then YccScript() else PlainScript(ncomps)
    requires NaturalOrder(order) && AllSent(passes, orig) && |arrivals| == |passes|
    requires forall i :: 0 <= i < |passes| ==> Arrives(passes[i], arrivals[i], orig)
    requires Shaped(arrays, orig) && Shaped(arrays, Cleared(orig)) && Represents(order, arrays, Cleared(orig)) && ScanScript.Holds(coefBits, Unsent(|orig|))
    modifies coefBits, Footprint(arrays)
    ensures !bad && warnings == 0 && Represents(order, arrays, orig)
  {
    hide NaturalOrder, Shaped, Footprint, Run, Achieved, Pass.Sent, Pass.Fits, Arrives, YccScript, PlainScript, ImageReached, Zigzag;
    SimpleScripts(ncomps, ycc, orig);
    bad, warnings := DecodeFile(passes, arrivals, order, coefBits, arrays, orig);
  }

  lemma AchievedNone(orig: Image)
    ensures Run(|orig|, []).Some? && Achieved(orig, []) == Cleared(orig)
  {
  }

  lemma AchievedNext(orig: Image, scans: seq<Scan>, i: nat)
    requires i < |scans| && Run(|orig|, scans[..i + 1]).Some? && Run(|orig|, scans[..i]).Some? && ScanOk(scans[i], Run(|orig|, scans[..i]).value)
    ensures Achieved(orig, scans[..i + 1]) == ImageAfter(scans[i], orig, Achieved(orig, scans[..i]))
  {
    hide Run, ImageAfter, ParametersOk, RowOk;
    assert scans[..i + 1][..i] == scans[..i];
  }
}
