// A whole progressive file, bytes and all: every scan of a script is coded into restart segments, padded,
// stuffed and followed by whatever comes next in the file, and a decoder that starts with cleared blocks
// reads one scan after the other.
module ScanRun {
  import opened Wrappers
  import opened Bits
  import opened HuffmanTable
  import opened BitReader
  import opened BitWriter
  import opened Segments
  import opened AcBlocks
  import opened AcScan
  import opened McuScan
  import opened ScanScript
  import opened Sequences

  // ---------- one segment ----------

  /** How a scan is coded: DC coefficients of interleaved components, or an AC band. */
  datatype Coding = Dc(c: Coder) | Ac(h: Table, p: Params)

  ghost predicate ValidCoding(k: Coding) {
    match k
    case Dc(c) => ValidCoder(c)
    case Ac(h, p) => Legal(h) && AcScan.Valid(p)
  }

  ghost predicate Suits(k: Coding, s: Scan) {
    && ParametersOk(s) && ValidCoding(k)
    && if s.ss == 0 then k.Dc? && k.c.mode == DcMode(s) else k.Ac? && k.p == AcParams(s)
  }

  /** The bits of a segment, and whether all of them could be sent. */
  ghost function SendSegment(k: Coding, items: seq<Item>): (bool, seq<bool>)
    requires ValidCoding(k)
  {
    match k
    case Dc(c) => (SendAll(c, items).ok, SendAll(c, items).bits)
    case Ac(h, p) =>
      var e := Flush(h, EncodeScan(h, p, Blocks(items)));
      (e.ok, e.bits)
  }

  /** What a decoder makes of the bits of a segment: predictions and EOB run start anew. */
  ghost function GetSegment(k: Coding, befores: seq<Item>, b: seq<bool>): (r: Option<seq<Block>>)
    requires ValidCoding(k)
    ensures r.Some? ==> |r.value| == |befores|
  {
    match k
    case Dc(c) => (
      match GetAll(c, NoLast, befores, b)
      case None => None
      case Some((zs, _, _)) => Some(zs)
    )
    case Ac(h, p) =>
      match DecodeScan(h, p, Blocks(befores), b)
      case None => None
      case Some((zs, _, _)) =>
        ScanPrefix(h, p, Blocks(befores), b, |befores|);
        Some(zs)
  }

  /** The blocks that a segment should give. */
  function Afters(s: Scan, orig: Image, dec: Image, il: Interleaving): (zs: seq<Block>)
    requires ParametersOk(s) && SameShape(orig, dec) && Covers(s, orig, il)
    ensures |zs| == |il|
  {
    var after := ImageAfter(s, orig, dec);
    seq(|il|, i requires 0 <= i < |il| => after[s.comps[il[i].0]][il[i].1])
  }

  lemma SegmentDecodes(k: Coding, s: Scan, bits: Positions, orig: Image, dec: Image, il: Interleaving, t: seq<bool>)
    requires ScanOk(s, bits) && ImageReached(bits, orig, dec) && Suits(k, s) && Covers(s, orig, il) && Covers(s, dec, il)
    requires SendSegment(k, Items(s, orig, il)).0
    ensures GetSegment(k, Items(s, dec, il), SendSegment(k, Items(s, orig, il)).1 + t) == Some(Afters(s, orig, dec, il))
  {
    hide ImageAfter, Legal, SmallSymbols, SendAll, GetAll, Flush, EncodeScan, DecodeScan, BlockReached, RowOk, Items, Blocks;
    match k {
      case Dc(c) =>
        DcScanDecodes(c, s, bits, orig, dec, il, t);
        var r := GetAll(c, NoLast, Items(s, dec, il), SendSegment(k, Items(s, orig, il)).1 + t);
        assert r.value.0 == Afters(s, orig, dec, il);
      case Ac(h, p) =>
        AcScanDecodes(h, s, bits, orig, dec, il, t);
        var r := DecodeScan(h, p, Blocks(Items(s, dec, il)), SendSegment(k, Items(s, orig, il)).1 + t);
        assert r.value.0 == Afters(s, orig, dec, il);
    }
  }

  // ---------- one scan ----------

  /** The scan sends every block of its components, and each of them once. */
  ghost predicate Lists(s: Scan, image: Image, il: Interleaving) {
    && Covers(s, image, il)
    && (forall i, j :: 0 <= i < j < |il| ==> il[i] != il[j])
    && forall c: component, b: nat :: c < |s.comps| && 0 <= s.comps[c] < |image| && b < |image[s.comps[c]]| ==> (c, b) in il
  }

  predicate AllCover(s: Scan, image: Image, segs: seq<Interleaving>) {
    forall i :: 0 <= i < |segs| ==> Covers(s, image, segs[i])
  }

  function Put(image: Image, ci: nat, b: nat, z: Block): (r: Image)
    requires ci < |image| && b < |image[ci]|
    ensures SameShape(image, r)
  {
    var blocks: seq<Block> := image[ci];
    image[ci := blocks[b := z]]
  }

  /** The decoded blocks go where the interleaving says. */
  function Placed(s: Scan, image: Image, il: Interleaving, zs: seq<Block>): (r: Image)
    requires Covers(s, image, il) && |zs| == |il|
    ensures SameShape(image, r)
  {
    if il == [] then image
    else
      var n := |il| - 1;
      Put(Placed(s, image, il[..n], zs[..n]), s.comps[il[n].0], il[n].1, zs[n])
  }

  /** A decoder that holds dec, at the beginning of segment i: the image after the scan, and the marker and
      the bytes that it stops at. */
  ghost function ReadScan(k: Coding, s: Scan, dec: Image, segs: seq<Interleaving>, i: nat, data: seq<byte>): (r: Option<(Image, (byte, seq<byte>))>)
    requires ValidCoding(k) && i < |segs| && AllCover(s, dec, segs)
    ensures r.Some? ==> SameShape(dec, r.value.0)
    decreases |segs| - i
  {
    match GetSegment(k, Items(s, dec, segs[i]), Destuff(data))
    case None => None
    case Some(zs) =>
      var dec' := Placed(s, dec, segs[i], zs);
      match MarkerIn(data)
      case None => None
      case Some((m, rest)) =>
        if i == |segs| - 1 then Some((dec', (m, rest)))
        else if m != RestartCode(i) then None
        else ReadScan(k, s, dec', segs, i + 1, rest)
  }

  /** The bits of each segment. */
  ghost function Segs(k: Coding, s: Scan, orig: Image, segs: seq<Interleaving>): (r: seq<seq<bool>>)
    requires ValidCoding(k) && AllCover(s, orig, segs)
    ensures |r| == |segs|
  {
    seq(|segs|, i requires 0 <= i < |segs| => SendSegment(k, Items(s, orig, segs[i])).1)
  }

  /** The encoder had a code for everything. */
  ghost predicate Sendable(k: Coding, s: Scan, orig: Image, segs: seq<Interleaving>)
    requires ValidCoding(k) && AllCover(s, orig, segs)
  {
    forall i :: 0 <= i < |segs| ==> SendSegment(k, Items(s, orig, segs[i])).0
  }

  // ---------- half-way through a scan ----------

  ghost predicate Done(s: Scan, il: Interleaving, ci: int, b: int) {
    exists i :: 0 <= i < |il| && 0 <= il[i].0 < |s.comps| && s.comps[il[i].0] == ci && il[i].1 == b
  }

  /** The blocks listed in il have been decoded, and no other. */
  ghost predicate Partly(s: Scan, orig: Image, dec0: Image, il: Interleaving, dec: Image)
    requires ParametersOk(s) && SameShape(orig, dec0)
  {
    && SameShape(orig, dec)
    && forall ci, b :: 0 <= ci < |orig| && 0 <= b < |orig[ci]| ==>
      dec[ci][b] == if Done(s, il, ci, b) then ImageAfter(s, orig, dec0)[ci][b] else dec0[ci][b]
  }

  lemma PutPartly(s: Scan, orig: Image, dec0: Image, il: Interleaving, dec: Image, x: (component, nat))
    requires ParametersOk(s) && SameShape(orig, dec0) && Partly(s, orig, dec0, il, dec)
    requires x.0 < |s.comps| && 0 <= s.comps[x.0] < |orig| && x.1 < |orig[s.comps[x.0]]|
    ensures Partly(s, orig, dec0, il + [x], Put(dec, s.comps[x.0], x.1, ImageAfter(s, orig, dec0)[s.comps[x.0]][x.1]))
  {
    hide ImageAfter, ParametersOk, Done;
    DoneNext(s, il, x);
  }

  lemma {:induction false} PlacedPartly(s: Scan, orig: Image, dec0: Image, il: Interleaving, dec: Image, more: Interleaving)
    requires ParametersOk(s) && SameShape(orig, dec0) && Partly(s, orig, dec0, il, dec)
    requires Covers(s, orig, more) && Covers(s, dec, more)
    ensures Partly(s, orig, dec0, il + more, Placed(s, dec, more, Afters(s, orig, dec0, more)))
    decreases |more|
  {
    hide ImageAfter, ParametersOk, Partly, Put;
    if more == [] {
      assert il + more == il;
    } else {
      var n := |more| - 1;
      var zs := Afters(s, orig, dec0, more);
      PlacedPartly(s, orig, dec0, il, dec, more[..n]);
      assert zs[..n] == Afters(s, orig, dec0, more[..n]);
      PutPartly(s, orig, dec0, il + more[..n], Placed(s, dec, more[..n], zs[..n]), more[n]);
      assert il + more[..n] + [more[n]] == il + more;
    }
  }

  lemma DoneNext(s: Scan, il: Interleaving, x: (component, nat))
    requires 0 <= x.0 < |s.comps|
    ensures forall ci, b :: Done(s, il + [x], ci, b) <==> Done(s, il, ci, b) || (ci == s.comps[x.0] && b == x.1)
  {
    forall ci, b ensures Done(s, il + [x], ci, b) <==> Done(s, il, ci, b) || (ci == s.comps[x.0] && b == x.1) {
      if Done(s, il, ci, b) {
        var i :| 0 <= i < |il| && 0 <= il[i].0 < |s.comps| && s.comps[il[i].0] == ci && il[i].1 == b;
        assert (il + [x])[i] == il[i];
      }
      assert (il + [x])[|il|] == x;
    }
  }

  lemma SameComponent(s: Scan, a: nat, b: nat)
    requires a < |s.comps| && b < |s.comps| && s.comps[a] == s.comps[b]
    requires forall i, j :: 0 <= i < j < |s.comps| ==> s.comps[i] < s.comps[j]
    ensures a == b
  {
  }

  /** What a segment lists, no earlier segment does. */
  lemma NotYet(s: Scan, n: nat, orig: Image, segs: seq<Interleaving>, i: nat)
    requires IndexesOk(s, n) && i < |segs| && Lists(s, orig, Joined(segs)) && Covers(s, orig, segs[i])
    ensures forall j :: 0 <= j < |segs[i]| ==> !Done(s, Joined(segs[..i]), s.comps[segs[i][j].0], segs[i][j].1)
  {
    hide Done, IndexesOk;
    var rest := JoinedSplit(segs, i);
    forall j | 0 <= j < |segs[i]| ensures !Done(s, Joined(segs[..i]), s.comps[segs[i][j].0], segs[i][j].1) {
      NotBoth(s, n, orig, Joined(segs[..i]), segs[i], rest, j);
    }
  }

  lemma NotBoth(s: Scan, n: nat, orig: Image, before: Interleaving, now: Interleaving, rest: Interleaving, j: nat)
    requires IndexesOk(s, n) && Lists(s, orig, before + now + rest) && j < |now| && now[j].0 < |s.comps|
    ensures !Done(s, before, s.comps[now[j].0], now[j].1)
  {
    hide IndexesOk;
    Ascending(s, n);
    var all := before + now + rest;
    assert all[|before| + j] == now[j];
    forall m | 0 <= m < |before| ensures before[m] != now[j] { assert all[m] == before[m]; }
    if Done(s, before, s.comps[now[j].0], now[j].1) {
      var m :| 0 <= m < |before| && 0 <= before[m].0 < |s.comps| && s.comps[before[m].0] == s.comps[now[j].0] && before[m].1 == now[j].1;
      SameComponent(s, before[m].0, now[j].0);
    }
  }

  lemma ItemsThen(s: Scan, orig: Image, dec0: Image, done: Interleaving, dec: Image, il: Interleaving)
    requires ParametersOk(s) && SameShape(orig, dec0) && Partly(s, orig, dec0, done, dec) && Covers(s, orig, il)
    requires forall j :: 0 <= j < |il| ==> !Done(s, done, s.comps[il[j].0], il[j].1)
    ensures Covers(s, dec, il) && Covers(s, dec0, il) && Items(s, dec, il) == Items(s, dec0, il)
  {
    hide ImageAfter, ParametersOk, Done;
  }

  /** Everything listed, everything done. */
  lemma AllDone(s: Scan, n: nat, orig: Image, dec0: Image, il: Interleaving, dec: Image)
    requires IndexesOk(s, n) && ParametersOk(s) && SameShape(orig, dec0) && Lists(s, orig, il) && Partly(s, orig, dec0, il, dec)
    ensures dec == ImageAfter(s, orig, dec0)
  {
    hide BlockAfter, ParametersOk;
    var after := ImageAfter(s, orig, dec0);
    forall ci, b | 0 <= ci < |orig| && 0 <= b < |orig[ci]| ensures dec[ci][b] == after[ci][b] {
      if ci in s.comps {
        var c :| 0 <= c < |s.comps| && s.comps[c] == ci;
        assert (c as component, b as nat) in il;
        var i :| 0 <= i < |il| && il[i] == (c, b);
        assert Done(s, il, ci, b);
      }
    }
    forall ci | 0 <= ci < |orig| ensures dec[ci] == after[ci] {
      assert |dec[ci]| == |after[ci]|;
    }
  }

  /** From segment i on. */
  lemma {:induction false} ScanReads(k: Coding, s: Scan, bits: Positions, orig: Image, dec0: Image, segs: seq<Interleaving>,
                                     i: nat, dec: Image, m: byte, t: seq<byte>)
    requires ScanOk(s, bits) && ImageReached(bits, orig, dec0) && Suits(k, s) && i < |segs| && m != 0 && m != 0xFF
    requires AllCover(s, orig, segs) && AllCover(s, dec, segs) && Lists(s, orig, Joined(segs)) && Sendable(k, s, orig, segs)
    requires Partly(s, orig, dec0, Joined(segs[..i]), dec)
    ensures ReadScan(k, s, dec, segs, i, From(Segs(k, s, orig, segs), i, [0xFF, m] + t)) == Some((ImageAfter(s, orig, dec0), (m, t)))
    decreases |segs| - i
  {
    hide ImageAfter, Done, Lists, SendSegment, GetSegment, From, Destuff, MarkerIn, StubIn, Items, Placed, Bytes, Pad, BlockReached, Partly;
    var il, sent := segs[i], Segs(k, s, orig, segs);
    FromReads(sent, i, m, t);
    NotYet(s, |bits|, orig, segs, i);
    ItemsThen(s, orig, dec0, Joined(segs[..i]), dec, il);
    SegmentDecodes(k, s, bits, orig, dec0, il, Pad(sent[i]));
    PlacedPartly(s, orig, dec0, Joined(segs[..i]), dec, il);
    var rest := JoinedSplit(segs, i);
    var dec' := Placed(s, dec, il, Afters(s, orig, dec0, il));
    if i == |segs| - 1 {
      assert segs[..i + 1] == segs;
      AllDone(s, |bits|, orig, dec0, Joined(segs), dec');
    } else {
      ScanReads(k, s, bits, orig, dec0, segs, i + 1, dec', m, t);
    }
  }

  // ---------- the whole file ----------

  /** A scan with its coding, its restart segments, and what stands between its data and the data of the
      next scan: a marker and some bytes, in which the tables and the header of the next scan are. */
  datatype Pass = Pass(scan: Scan, coding: Coding, segs: seq<Interleaving>, next: byte, header: seq<byte>)
  {
    /** The layout fits an image of this shape. */
    ghost predicate Fits(image: Image) {
      Suits(coding, scan) && segs != [] && AllCover(scan, image, segs) && next != 0 && next != 0xFF
    }

    /** ... every block is sent once, and the encoder has a code for everything. */
    ghost predicate Sent(orig: Image) {
      Fits(orig) && Lists(scan, orig, Joined(segs)) && Sendable(coding, scan, orig, segs)
    }

    ghost function Data(orig: Image): seq<byte>
      requires Fits(orig)
    {
      ScanBytes(Segs(coding, scan, orig, segs)) + ([0xFF, next] + header)
    }
  }

  function Scans(passes: seq<Pass>): (scans: seq<Scan>)
    ensures |scans| == |passes|
  {
    seq(|passes|, i requires 0 <= i < |passes| => passes[i].scan)
  }

  ghost predicate AllFit(passes: seq<Pass>, image: Image) {
    forall i :: 0 <= i < |passes| ==> passes[i].Fits(image)
  }

  ghost predicate AllSent(passes: seq<Pass>, orig: Image) {
    forall i :: 0 <= i < |passes| ==> passes[i].Sent(orig)
  }

  /** The data of all scans, and what follows them. */
  ghost function File(passes: seq<Pass>, orig: Image, t: seq<byte>): seq<byte>
    requires AllFit(passes, orig)
  {
    if passes == [] then t else File(passes[..|passes| - 1], orig, passes[|passes| - 1].Data(orig) + t)
  }

  /** The decoder: scan after scan, from the image it starts with; the unread bytes. */
  ghost function Received(passes: seq<Pass>, start: Image, data: seq<byte>): (r: Option<(Image, seq<byte>)>)
    requires AllFit(passes, start)
    ensures r.Some? ==> SameShape(start, r.value.0)
  {
    if passes == [] then Some((start, data))
    else
      var x := passes[|passes| - 1];
      match Received(passes[..|passes| - 1], start, data)
      case None => None
      case Some((dec, d)) =>
        match ReadScan(x.coding, x.scan, dec, x.segs, 0, d)
        case None => None
        case Some((dec', (m, rest))) =>
          if m == x.next && x.header <= rest then Some((dec', rest[|x.header|..])) else None
  }

  lemma OnePass(x: Pass, bits: Positions, orig: Image, dec: Image, t: seq<byte>)
    requires ScanOk(x.scan, bits) && ImageReached(bits, orig, dec) && x.Sent(orig) && AllCover(x.scan, dec, x.segs)
    ensures ReadScan(x.coding, x.scan, dec, x.segs, 0, x.Data(orig) + t) == Some((ImageAfter(x.scan, orig, dec), (x.next, x.header + t)))
  {
    hide ValidCoding, DcMode, AcParams, Lists, Sendable, ReadScan, ScanBytes, BlockReached, ImageAfter, From;
    var segs := Segs(x.coding, x.scan, orig, x.segs);
    assert x.Data(orig) + t == ScanBytes(segs) + ([0xFF, x.next] + (x.header + t));
    ScanFrom(segs, [0xFF, x.next] + (x.header + t));
    assert Joined(x.segs[..0]) == [];
    assert Partly(x.scan, orig, dec, [], dec);
    ScanReads(x.coding, x.scan, bits, orig, dec, x.segs, 0, dec, x.next, x.header + t);
  }

  lemma FitAnyway(passes: seq<Pass>, orig: Image, image: Image)
    requires AllSent(passes, orig) && SameShape(orig, image)
    ensures AllFit(passes, orig) && AllFit(passes, image)
  {
    hide Suits, Lists, Sendable;
    forall i | 0 <= i < |passes| ensures passes[i].Fits(image) {
      assert passes[i].Sent(orig);
      forall j | 0 <= j < |passes[i].segs| ensures Covers(passes[i].scan, image, passes[i].segs[j]) {
        assert Covers(passes[i].scan, orig, passes[i].segs[j]);
      }
    }
  }

  /** The whole run on the bytes of the file: whatever the tables, the interleaving, the restart segments
      and the headers in between, the decoder ends with every coefficient at the precision that the scans
      have reached, and has read just the scans. */
  lemma {:induction false} WholeRun(orig: Image, passes: seq<Pass>, t: seq<byte>)
    requires Run(|orig|, Scans(passes)).Some? && AllSent(passes, orig)
    ensures AllFit(passes, orig) && AllFit(passes, Cleared(orig))
    ensures var r := Received(passes, Cleared(orig), File(passes, orig, t));
      && r == Some((Achieved(orig, Scans(passes)), t))
      && ImageReached(Run(|orig|, Scans(passes)).value, orig, r.value.0)
    decreases |passes|
  {
    hide ReadScan, Run, ScanOk, ImageReached, ImageAfter, BitsAfter, Suits, Lists, Sendable, Pass.Data;
    FitAnyway(passes, orig, Cleared(orig));
    PrecisionReached(orig, Scans(passes));
    if passes == [] {
      assert Scans(passes) == [];
    } else {
      var n := |passes| - 1;
      var x, scans := passes[n], Scans(passes);
      assert Scans(passes[..n]) == scans[..n];
      RunPrefix(|orig|, scans, n);
      WholeRun(orig, passes[..n], x.Data(orig) + t);
      OnePass(x, Run(|orig|, scans[..n]).value, orig, Achieved(orig, scans[..n]), t);
      assert (x.header + t)[|x.header|..] == t;
    }
  }

  lemma {:induction false} FileSplit(passes: seq<Pass>, orig: Image, t: seq<byte>, i: nat) returns (rest: seq<byte>)
    requires AllFit(passes, orig) && i <= |passes|
    ensures File(passes, orig, t) == File(passes[..i], orig, rest)
    decreases |passes|
  {
    hide Pass.Data, Pass.Fits;
    var n := |passes| - 1;
    if i == |passes| {
      assert passes[..i] == passes;
      rest := t;
    } else {
      rest := FileSplit(passes[..n], orig, passes[n].Data(orig) + t, i);
      assert passes[..n][..i] == passes[..i];
    }
  }

  /** A decoder that has read the first i scans of the file: every coefficient is the original under the
      point transform of its last Al, and the next scan is one that fits. */
  lemma EveryPrefix(orig: Image, passes: seq<Pass>, t: seq<byte>, i: nat) returns (rest: seq<byte>)
    requires Scans(passes) != [] && Accepted(|orig|, Scans(passes)) && Progressive(Scans(passes))
    requires AllSent(passes, orig) && i <= |passes|
    ensures AllFit(passes, orig) && AllFit(passes, Cleared(orig)) && Run(|orig|, Scans(passes)[..i]).Some?
    ensures var r, bits := Received(passes[..i], Cleared(orig), File(passes, orig, t)), Run(|orig|, Scans(passes)[..i]).value;
      && r.Some? && r.value.1 == rest && ImageReached(bits, orig, r.value.0)
      && (i < |passes| ==> ScanOk(passes[i].scan, bits))
  {
    hide Run, Received, File, ScanOk, ImageReached, Pass.Sent, Pass.Fits;
    FitAnyway(passes, orig, Cleared(orig));
    rest := FileSplit(passes, orig, t, i);
    RunPrefix(|orig|, Scans(passes), i);
    assert Scans(passes[..i]) == Scans(passes)[..i];
    WholeRun(orig, passes[..i], rest);
  }

  /** What has been sent down to bit 0 is received exactly. */
  lemma Exact(orig: Image, passes: seq<Pass>, t: seq<byte>, ci: nat, b: nat, k: nat)
    requires Run(|orig|, Scans(passes)).Some? && AllSent(passes, orig)
    requires ci < |orig| && b < |orig[ci]| && k < 64 && Run(|orig|, Scans(passes)).value[ci][k] == 0
    ensures AllFit(passes, orig) && AllFit(passes, Cleared(orig))
    ensures var r := Received(passes, Cleared(orig), File(passes, orig, t));
      r.Some? && r.value.0[ci][b][k] == orig[ci][b][k]
  {
    hide Run, Received, File, Achieved, ImageReached, Pass.Sent, Pass.Fits;
    WholeRun(orig, passes, t);
    AchievedExact(orig, Scans(passes), ci, b, k);
  }

  /** The scripts of jpeg_simple_progression: they are accepted, and a decoder that reads the file from its
      first scan to its last has exactly the original coefficients. */
  lemma SimpleProgression(ncomps: nat, ycc: bool, orig: Image, passes: seq<Pass>, t: seq<byte>)
    requires 0 < ncomps == |orig| && AllSent(passes, orig)
    requires Scans(passes) == if ncomps == 3 && ycc then YccScript() else PlainScript(ncomps)
    ensures Scans(passes) != [] && Accepted(ncomps, Scans(passes)) && Progressive(Scans(passes))
    ensures AllFit(passes, orig) && AllFit(passes, Cleared(orig))
    ensures Received(passes, Cleared(orig), File(passes, orig, t)) == Some((orig, t))
  {
    hide Run, Received, File, Achieved, ImageReached, Pass.Sent, Pass.Fits, YccScript, PlainScript;
    SimpleScripts(ncomps, ycc, orig);
    WholeRun(orig, passes, t);
  }
}
