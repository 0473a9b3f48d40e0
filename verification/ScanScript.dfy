// Progressive scan scripts: what validate_script (jcmaster.c) accepts, what start_pass_phuff_decoder
// (jdphuff.c) checks, the scripts jpeg_simple_progression (jcparam.c) makes, and what a decoder
// holds after every prefix of an accepted script.
module ScanScript {
  import opened Wrappers
  import opened Bits
  import opened HuffmanTable
  import opened Coefficients
  import opened AcBlocks
  import opened AcScan
  import opened McuScan

  const MAX_COMPONENTS: nat := 10
  const MAX_AH_AL: int := 10

  /** jpeg_scan_info */
  datatype Scan = Scan(comps: seq<int>, ss: int, se: int, ah: int, al: int)

  /** The last Al sent for every coefficient of every component, -1 if none. */
  type Row = r: seq<int> | |r| == 64 witness seq(64, _ => -1)
  type Positions = seq<Row>

  function Unsent(n: nat): Positions { seq(n, _ => seq(64, _ => -1)) }

  predicate IndexesOk(s: Scan, n: nat) {
    && 1 <= |s.comps| <= MAX_COMPS_IN_SCAN
    && (forall i :: 0 <= i < |s.comps| ==> 0 <= s.comps[i] < n)
    && (forall i {:trigger s.comps[i]} :: 1 <= i < |s.comps| ==> s.comps[i - 1] < s.comps[i])
  }

  predicate ParametersOk(s: Scan) {
    && 0 <= s.ss <= s.se < 64 && 0 <= s.ah <= MAX_AH_AL && 0 <= s.al <= MAX_AH_AL
    && (if s.ss == 0 then s.se == 0 else |s.comps| == 1)
  }

  /** A coefficient may be sent now: for the first time, or with just one more bit. */
  predicate StepOk(s: Scan, last: int) {
    if last < 0 then s.ah == 0 else s.ah == last && s.al == s.ah - 1
  }

  predicate RowOk(s: Scan, row: Row)
    requires ParametersOk(s)
  {
    (s.ss != 0 ==> row[0] >= 0) && forall k :: s.ss <= k <= s.se ==> StepOk(s, row[k])
  }

  function RowAfter(s: Scan, row: Row): Row {
    seq(64, k requires 0 <= k < 64 => if s.ss <= k <= s.se then s.al else row[k])
  }

  predicate ScanOk(s: Scan, bits: Positions) {
    && IndexesOk(s, |bits|) && ParametersOk(s)
    && forall i :: 0 <= i < |s.comps| ==> RowOk(s, bits[s.comps[i]])
  }

  function BitsAfter(s: Scan, bits: Positions): (r: Positions)
    ensures |r| == |bits|
  {
    seq(|bits|, ci requires 0 <= ci < |bits| => if ci in s.comps then RowAfter(s, bits[ci]) else bits[ci])
  }

  /** Where the scans lead, if each of them is in order. */
  function Run(n: nat, scans: seq<Scan>): (r: Option<Positions>)
    ensures r.Some? ==> |r.value| == n
  {
    if scans == [] then Some(Unsent(n))
    else match Run(n, scans[..|scans| - 1])
      case None => None
      case Some(bits) => if ScanOk(scans[|scans| - 1], bits) then Some(BitsAfter(scans[|scans| - 1], bits)) else None
  }

  predicate Progressive(scans: seq<Scan>)
    requires scans != []
  {
    scans[0].ss != 0 || scans[0].se != 63
  }

  predicate Sends(scans: seq<Scan>, ci: int) {
    exists i :: 0 <= i < |scans| && ci in scans[i].comps
  }

  predicate SequentialOk(n: nat, scans: seq<Scan>) {
    && (forall i :: 0 <= i < |scans| ==> IndexesOk(scans[i], n) && scans[i].ss == 0 && scans[i].se == 63 && scans[i].ah == 0 && scans[i].al == 0)
    && (forall ci :: 0 <= ci < n ==> Sends(scans, ci))
    && (forall i, j, ci :: 0 <= i < j < |scans| && ci in scans[i].comps ==> ci !in scans[j].comps)
  }

  /** A script that validate_script lets pass. */
  predicate Accepted(n: nat, scans: seq<Scan>) {
    && scans != []
    && (if Progressive(scans) then Run(n, scans).Some? && forall ci :: 0 <= ci < n ==> Run(n, scans).value[ci][0] >= 0
        else SequentialOk(n, scans))
  }

  lemma {:induction false} RunPrefix(n: nat, scans: seq<Scan>, i: nat)
    requires i <= |scans| && Run(n, scans).Some?
    ensures Run(n, scans[..i]).Some?
    ensures i < |scans| ==> ScanOk(scans[i], Run(n, scans[..i]).value) && Run(n, scans[..i + 1]) == Some(BitsAfter(scans[i], Run(n, scans[..i]).value))
    decreases |scans|
  {
    hide ScanOk, BitsAfter;
    if i == |scans| {
      assert scans[..i] == scans;
    } else if i == |scans| - 1 {
      assert scans[..i + 1] == scans;
    } else {
      var scans' := scans[..|scans| - 1];
      RunPrefix(n, scans', i);
      assert scans'[..i] == scans[..i] && scans'[..i + 1] == scans[..i + 1];
    }
  }

  // ---------- the same by the history of every coefficient ----------

  /** The Al of the last scan that sent coefficient k of component c, -1 if none did. */
  function LastAl(scans: seq<Scan>, c: int, k: int): int {
    if scans == [] then -1
    else
      var s := scans[|scans| - 1];
      if c in s.comps && s.ss <= k <= s.se then s.al else LastAl(scans[..|scans| - 1], c, k)
  }

  /** A scan may follow these: one to four components in ascending order, DC alone or a band of a single component
      whose DC has been sent; each coefficient for the first time from some bit up, or with just the next bit. */
  predicate Follows(before: seq<Scan>, s: Scan, n: nat) {
    && 1 <= |s.comps| <= 4 && (forall i :: 0 <= i < |s.comps| ==> 0 <= s.comps[i] < n)
    && (forall i, j :: 0 <= i < j < |s.comps| ==> s.comps[i] < s.comps[j])
    && 0 <= s.ss <= s.se <= 63 && 0 <= s.ah <= 10 && 0 <= s.al <= 10
    && (s.ss == 0 ==> s.se == 0) && (s.ss > 0 ==> |s.comps| == 1 && LastAl(before, s.comps[0], 0) >= 0)
    && forall i, k {:trigger LastAl(before, s.comps[i], k)} :: 0 <= i < |s.comps| && s.ss <= k <= s.se ==>
      if LastAl(before, s.comps[i], k) < 0 then s.ah == 0
      else s.ah == LastAl(before, s.comps[i], k) && s.al == LastAl(before, s.comps[i], k) - 1
  }

  /** Every scan may follow those before it, and no component lacks its DC. */
  predicate InOrder(n: nat, scans: seq<Scan>) {
    (forall i :: 0 <= i < |scans| ==> Follows(scans[..i], scans[i], n)) && forall c :: 0 <= c < n ==> LastAl(scans, c, 0) >= 0
  }

  lemma FollowsOk(before: seq<Scan>, s: Scan, bits: Positions)
    requires forall c, k :: 0 <= c < |bits| && 0 <= k < 64 ==> bits[c][k] == LastAl(before, c, k)
    ensures Follows(before, s, |bits|) <==> ScanOk(s, bits)
  {
    hide LastAl;
    if IndexesOk(s, |bits|) { Ascending(s, |bits|); }
    if Follows(before, s, |bits|) {
      forall i | 0 <= i < |s.comps| ensures RowOk(s, bits[s.comps[i]]) {
        forall k | s.ss <= k <= s.se ensures StepOk(s, bits[s.comps[i]][k]) { assert bits[s.comps[i]][k] == LastAl(before, s.comps[i], k); }
      }
    }
    if ScanOk(s, bits) {
      forall i, k | 0 <= i < |s.comps| && s.ss <= k <= s.se
        ensures if LastAl(before, s.comps[i], k) < 0 then s.ah == 0
                else s.ah == LastAl(before, s.comps[i], k) && s.al == LastAl(before, s.comps[i], k) - 1
      {
        assert RowOk(s, bits[s.comps[i]]) && StepOk(s, bits[s.comps[i]][k]);
      }
      assert RowOk(s, bits[s.comps[0]]);
    }
  }

  /** The table of validate_script is that history. */
  lemma {:induction false} RunHistory(n: nat, scans: seq<Scan>)
    ensures Run(n, scans).Some? <==> forall i :: 0 <= i < |scans| ==> Follows(scans[..i], scans[i], n)
    ensures Run(n, scans).Some? ==> forall c, k :: 0 <= c < n && 0 <= k < 64 ==> Run(n, scans).value[c][k] == LastAl(scans, c, k)
  {
    hide ScanOk, Follows;
    if scans != [] {
      var m := |scans| - 1;
      RunHistory(n, scans[..m]);
      forall i | 0 <= i < m ensures scans[..m][..i] == scans[..i] && scans[..m][i] == scans[i] {}
      if Run(n, scans[..m]).Some? { FollowsOk(scans[..m], scans[m], Run(n, scans[..m]).value); }
    }
  }

  /** What validate_script accepts, by the history of every coefficient. */
  lemma AcceptedHistory(n: nat, scans: seq<Scan>)
    requires scans != [] && Progressive(scans)
    ensures Accepted(n, scans) <==> InOrder(n, scans)
  {
    hide Run, Follows, LastAl;
    RunHistory(n, scans);
  }

  /** Ten bits may be held back, and no more. */
  lemma DeepestStart(al: nat)
    ensures Accepted(1, [Scan([0], 0, 0, 0, al)]) <==> al <= 10
  {
    var s := Scan([0], 0, 0, 0, al);
    AcceptedHistory(1, [s]);
    assert [s][..0] == [];
    assert LastAl([s], 0, 0) == al;
    if al <= 10 { assert Follows([], s, 1); }
    if InOrder(1, [s]) { assert Follows([s][..0], [s][0], 1); }
  }

  // ---------- the decoder's view ----------

  /** What a decoder holds of coefficient k once it has seen it down to bit p: arithmetic shift for DC,
      rounding toward zero for AC. */
  predicate Reached(k: nat, p: int, v: int, w: int) {
    if p < 0 then w == 0 else if k == 0 then w == Shl(Shr(v, p), p) else w == Point(v, p)
  }

  type Image = seq<seq<Block>>

  predicate SameShape(a: Image, b: Image) {
    |a| == |b| && forall ci :: 0 <= ci < |a| ==> |a[ci]| == |b[ci]|
  }

  predicate BlockReached(row: Row, z: Block, w: Block) {
    forall k :: 0 <= k < 64 ==> Reached(k, row[k], z[k], w[k])
  }

  predicate ImageReached(bits: Positions, orig: Image, dec: Image) {
    && |bits| == |orig| && SameShape(orig, dec)
    && forall ci, b :: 0 <= ci < |orig| && 0 <= b < |orig[ci]| ==> BlockReached(bits[ci], orig[ci][b], dec[ci][b])
  }

  function DcMode(s: Scan): Mode
    requires ParametersOk(s)
  {
    if s.ah == 0 then DcFirst(s.al) else DcRefine(s.al)
  }

  function AcParams(s: Scan): Params
    requires ParametersOk(s)
  {
    Params(if s.ah == 0 then Initial else Refine, s.ss, s.se, s.al)
  }

  /** What a scan needs of a block, and makes of it. */
  predicate BlockReady(s: Scan, before: Block, z: Block)
    requires ParametersOk(s)
  {
    if s.ss == 0 then ItemReady(DcMode(s), before, z) else Ready(AcParams(s), before, z)
  }

  function BlockAfter(s: Scan, before: Block, z: Block): Block
    requires ParametersOk(s)
  {
    if s.ss == 0 then ItemAfter(DcMode(s), before, z) else After(AcParams(s), before, z)
  }

  /** Earlier scans have left just what this one relies on, and it leaves just what later ones rely on. */
  lemma BlockStep(s: Scan, row: Row, z: Block, before: Block)
    requires ParametersOk(s) && RowOk(s, row) && BlockReached(row, z, before)
    ensures BlockReady(s, before, z)
    ensures BlockReached(RowAfter(s, row), z, BlockAfter(s, before, z))
  {
    hide Point, Shr, Shl;
    var after := BlockAfter(s, before, z);
    if s.ss == 0 {
      assert Reached(0, row[0], z[0], before[0]) && StepOk(s, row[0]);
    } else {
      forall k | s.ss <= k <= s.se ensures before[k] == if s.ah == 0 then 0 else Point(z[k], s.al + 1) {
        assert Reached(k, row[k], z[k], before[k]) && StepOk(s, row[k]);
        if s.ah == 0 && row[k] >= 0 { assert false; }
      }
    }
    forall k | 0 <= k < 64 ensures Reached(k, RowAfter(s, row)[k], z[k], after[k]) {
      assert Reached(k, row[k], z[k], before[k]);
    }
  }

  function ImageAfter(s: Scan, orig: Image, dec: Image): (r: Image)
    requires ParametersOk(s) && SameShape(orig, dec)
    ensures SameShape(orig, r)
  {
    seq(|orig|, ci requires 0 <= ci < |orig| =>
      if ci in s.comps then seq(|orig[ci]|, b requires 0 <= b < |orig[ci]| => BlockAfter(s, dec[ci][b], orig[ci][b])) else dec[ci])
  }

  /** One scan of an accepted script. */
  lemma ScanStep(s: Scan, bits: Positions, orig: Image, dec: Image)
    requires ScanOk(s, bits) && ImageReached(bits, orig, dec)
    ensures forall i, b :: 0 <= i < |s.comps| && 0 <= b < |orig[s.comps[i]]| ==> BlockReady(s, dec[s.comps[i]][b], orig[s.comps[i]][b])
    ensures ImageReached(BitsAfter(s, bits), orig, ImageAfter(s, orig, dec))
  {
    hide BlockReached, BlockReady, BlockAfter, ParametersOk, RowOk, RowAfter;
    forall i, b | 0 <= i < |s.comps| && 0 <= b < |orig[s.comps[i]]| ensures BlockReady(s, dec[s.comps[i]][b], orig[s.comps[i]][b]) {
      BlockStep(s, bits[s.comps[i]], orig[s.comps[i]][b], dec[s.comps[i]][b]);
    }
    var bits', dec' := BitsAfter(s, bits), ImageAfter(s, orig, dec);
    forall ci, b | 0 <= ci < |orig| && 0 <= b < |orig[ci]| ensures BlockReached(bits'[ci], orig[ci][b], dec'[ci][b]) {
      if ci in s.comps {
        var i :| 0 <= i < |s.comps| && s.comps[i] == ci;
        BlockStep(s, bits[ci], orig[ci][b], dec[ci][b]);
      }
    }
  }

  /** The decoder starts with cleared coefficients. */
  function Cleared(orig: Image): (r: Image)
    ensures SameShape(orig, r)
  {
    seq(|orig|, ci requires 0 <= ci < |orig| => seq(|orig[ci]|, _ => seq(64, _ => 0)))
  }

  /** ... and this is what one scan after the other is meant to make of them. */
  function Achieved(orig: Image, scans: seq<Scan>): (r: Image)
    requires Run(|orig|, scans).Some?
    ensures SameShape(orig, r)
  {
    if scans == [] then Cleared(orig)
    else ImageAfter(scans[|scans| - 1], orig, Achieved(orig, scans[..|scans| - 1]))
  }

  /** After the scans of a script every coefficient is meant to be the original under the point transform
      of its last Al, and the next scan finds what it needs. */
  lemma {:induction false} PrecisionReached(orig: Image, scans: seq<Scan>)
    requires Run(|orig|, scans).Some?
    ensures ImageReached(Run(|orig|, scans).value, orig, Achieved(orig, scans))
    ensures scans != [] ==>
      var s, dec := scans[|scans| - 1], Achieved(orig, scans[..|scans| - 1]);
      forall i, b :: 0 <= i < |s.comps| && 0 <= b < |orig[s.comps[i]]| ==> BlockReady(s, dec[s.comps[i]][b], orig[s.comps[i]][b])
  {
    hide BlockReached, BlockReady, ImageAfter, BitsAfter, ParametersOk, RowOk;
    if scans == [] {
      ClearedReached(orig);
    } else {
      var n := |scans| - 1;
      PrecisionReached(orig, scans[..n]);
      ScanStep(scans[n], Run(|orig|, scans[..n]).value, orig, Achieved(orig, scans[..n]));
    }
  }

  lemma ClearedReached(orig: Image)
    ensures ImageReached(Unsent(|orig|), orig, Cleared(orig))
  {
  }

  /** What is sent down to bit 0 is exact. */
  lemma AchievedExact(orig: Image, scans: seq<Scan>, ci: nat, b: nat, k: nat)
    requires Run(|orig|, scans).Some? && ci < |orig| && b < |orig[ci]| && k < 64 && Run(|orig|, scans).value[ci][k] == 0
    ensures Achieved(orig, scans)[ci][b][k] == orig[ci][b][k]
  {
    hide Run, Achieved;
    PrecisionReached(orig, scans);
    assert BlockReached(Run(|orig|, scans).value[ci], orig[ci][b], Achieved(orig, scans)[ci][b]);
    ShiftNone(orig[ci][b][k]);
    PointZero(orig[ci][b][k]);
  }

  // ---------- the scans as they are coded ----------

  /** The blocks of a scan, or of one of its restart segments, in the order in which they are sent:
      component number in the scan, and block. */
  type Interleaving = seq<(component, nat)>

  predicate Covers(s: Scan, image: Image, il: Interleaving) {
    forall i :: 0 <= i < |il| ==> il[i].0 < |s.comps| && 0 <= s.comps[il[i].0] < |image| && il[i].1 < |image[s.comps[il[i].0]]|
  }

  function Items(s: Scan, image: Image, il: Interleaving): (items: seq<Item>)
    requires Covers(s, image, il)
    ensures |items| == |il|
  {
    seq(|il|, i requires 0 <= i < |il| => Item(il[i].0, image[s.comps[il[i].0]][il[i].1]))
  }

  /** A segment of an AC scan: if the encoder could send it, a decoder that holds dec gets the blocks of
      ImageAfter out of its bits. */
  lemma AcScanDecodes(h: Table, s: Scan, bits: Positions, orig: Image, dec: Image, il: Interleaving, t: seq<bool>)
    requires Legal(h) && ScanOk(s, bits) && ImageReached(bits, orig, dec) && s.ss > 0
    requires Covers(s, orig, il) && Covers(s, dec, il) && Flush(h, EncodeScan(h, AcParams(s), Blocks(Items(s, orig, il)))).ok
    ensures var r := DecodeScan(h, AcParams(s), Blocks(Items(s, dec, il)), Flush(h, EncodeScan(h, AcParams(s), Blocks(Items(s, orig, il)))).bits + t);
      && r.Some? && r.value.1 == t && r.value.2 == 0 && |r.value.0| == |il|
      && forall i :: 0 <= i < |il| ==> r.value.0[i] == ImageAfter(s, orig, dec)[s.comps[il[i].0]][il[i].1]
  {
    hide Legal, Flush, EncodeScan, DecodeScan, BlockReached, RowOk, Ready, Improve;
    ScanStep(s, bits, orig, dec);
    var xs, ys := Blocks(Items(s, dec, il)), Blocks(Items(s, orig, il));
    forall i | 0 <= i < |il| ensures Ready(AcParams(s), xs[i], ys[i]) {
      assert BlockReady(s, dec[s.comps[il[i].0]][il[i].1], orig[s.comps[il[i].0]][il[i].1]);
    }
    ScanRoundTrip(h, AcParams(s), ys, xs, t);
  }

  /** A segment of a DC scan, whatever the interleaving. */
  lemma DcScanDecodes(c: Coder, s: Scan, bits: Positions, orig: Image, dec: Image, il: Interleaving, t: seq<bool>)
    requires ScanOk(s, bits) && ImageReached(bits, orig, dec) && s.ss == 0
    requires ValidCoder(c) && c.mode == DcMode(s) && Covers(s, orig, il) && Covers(s, dec, il)
    requires SendAll(c, Items(s, orig, il)).ok
    ensures var r := GetAll(c, NoLast, Items(s, dec, il), SendAll(c, Items(s, orig, il)).bits + t);
      && r.Some? && r.value.2 == t && |r.value.0| == |il|
      && forall i :: 0 <= i < |il| ==> r.value.0[i] == ImageAfter(s, orig, dec)[s.comps[il[i].0]][il[i].1]
  {
    hide Legal, SendAll, GetAll, BlockReached, RowOk, ItemReady, ItemAfter, SmallSymbols;
    ScanStep(s, bits, orig, dec);
    var xs, ys := Items(s, dec, il), Items(s, orig, il);
    forall i | 0 <= i < |il| ensures ItemReady(c.mode, xs[i].z, ys[i].z) {
      assert BlockReady(s, dec[s.comps[il[i].0]][il[i].1], orig[s.comps[il[i].0]][il[i].1]);
    }
    SegmentRoundTrip(c, ys, xs, t);
  }

  // ---------- validate_script ----------

  ghost predicate Holds(a: array2<int>, bits: Positions)
    reads a
  {
    && |bits| <= a.Length0 && a.Length1 == 64
    && forall ci, k :: 0 <= ci < |bits| && 0 <= k < 64 ==> a[ci, k] == bits[ci][k]
  }

  /** The component indexes of a scan. */
  method CheckIndexes(s: Scan, n: nat) returns (ok: bool)
    ensures ok <==> IndexesOk(s, n)
  {
    var ncomps := |s.comps|;
    if ncomps <= 0 || ncomps > MAX_COMPS_IN_SCAN { return false; }
    for ci := 0 to ncomps
      invariant forall i :: 0 <= i < ci ==> 0 <= s.comps[i] < n
      invariant forall i {:trigger s.comps[i]} :: 1 <= i < ci ==> s.comps[i - 1] < s.comps[i]
    {
      var thisi := s.comps[ci];
      if thisi < 0 || thisi >= n { return false; }
      if ci > 0 && thisi <= s.comps[ci - 1] { return false; }
    }
    ok := true;
  }

  /** One component of a progressive scan: check and update its row. */
  method CheckRow(s: Scan, a: array2<int>, ci: nat, ghost row: Row) returns (ok: bool)
    requires ParametersOk(s) && ci < a.Length0 && a.Length1 == 64 && forall k :: 0 <= k < 64 ==> a[ci, k] == row[k]
    modifies a
    ensures ok <==> RowOk(s, row)
    ensures ok ==> forall k :: 0 <= k < 64 ==> a[ci, k] == RowAfter(s, row)[k]
    ensures forall j, k :: 0 <= j < a.Length0 && 0 <= k < 64 && j != ci ==> a[j, k] == old(a[j, k])
  {
    if s.ss != 0 && a[ci, 0] < 0 { return false; }
    for coefi := s.ss to s.se + 1
      invariant forall k :: s.ss <= k < coefi ==> StepOk(s, row[k]) && a[ci, k] == s.al
      invariant forall k :: 0 <= k < 64 && !(s.ss <= k < coefi) ==> a[ci, k] == row[k]
      invariant forall j, k :: 0 <= j < a.Length0 && 0 <= k < 64 && j != ci ==> a[j, k] == old(a[j, k])
    {
      if a[ci, coefi] < 0 {
        if s.ah != 0 { return false; }
      } else {
        if s.ah != a[ci, coefi] || s.al != s.ah - 1 { return false; }
      }
      a[ci, coefi] := s.al;
    }
    ok := true;
  }

  /** One progressive scan. */
  method CheckScan(s: Scan, n: nat, a: array2<int>, ghost bits: Positions) returns (ok: bool)
    requires Holds(a, bits) && n == |bits|
    modifies a
    ensures ok <==> ScanOk(s, bits)
    ensures ok ==> Holds(a, BitsAfter(s, bits))
  {
    hide StepOk, RowOk, RowAfter;
    ok := CheckIndexes(s, n);
    if !ok { return; }
    if s.ss < 0 || s.ss >= 64 || s.se < s.ss || s.se >= 64 || s.ah < 0 || s.ah > MAX_AH_AL || s.al < 0 || s.al > MAX_AH_AL {
      return false;
    }
    if s.ss == 0 {
      if s.se != 0 { return false; }
    } else {
      if |s.comps| != 1 { return false; }
    }
    Ascending(s, |bits|);
    for ci := 0 to |s.comps|
      invariant forall i :: 0 <= i < ci ==> RowOk(s, bits[s.comps[i]])
      invariant forall i, k :: 0 <= i < ci && 0 <= k < 64 ==> a[s.comps[i], k] == RowAfter(s, bits[s.comps[i]])[k]
      invariant forall c, k :: 0 <= c < |bits| && 0 <= k < 64 && c !in s.comps[..ci] ==> a[c, k] == bits[c][k]
    {
      ok := CheckRow(s, a, s.comps[ci], bits[s.comps[ci]]);
      if !ok { return; }
    }
  }

  lemma Ascending(s: Scan, n: nat)
    requires IndexesOk(s, n)
    ensures forall i, j :: 0 <= i < j < |s.comps| ==> s.comps[i] < s.comps[j]
  {
    forall i, j | 0 <= i < j < |s.comps| ensures s.comps[i] < s.comps[j] { AscendingFrom(s, n, i, j); }
  }

  lemma {:induction false} AscendingFrom(s: Scan, n: nat, i: nat, j: nat)
    requires IndexesOk(s, n) && i < j < |s.comps|
    ensures s.comps[i] < s.comps[j]
    decreases j
  {
    if i + 1 < j { AscendingFrom(s, n, i, j - 1); }
    assert s.comps[j - 1] < s.comps[j];
  }

  /** The progressive path of validate_script. */
  method ValidateProgressive(n: nat, scans: seq<Scan>) returns (ok: bool)
    requires scans != [] && Progressive(scans) && n <= MAX_COMPONENTS
    ensures ok <==> Accepted(n, scans)
  {
    hide ScanOk, BitsAfter;
    var a := new int[MAX_COMPONENTS, 64]((_, _) => -1);
    ghost var bits := Unsent(n);
    for scanno := 0 to |scans|
      invariant Run(n, scans[..scanno]) == Some(bits) && Holds(a, bits)
    {
      RunStep(n, scans, scanno);
      ok := CheckScan(scans[scanno], n, a, bits);
      if !ok { return; }
      bits := BitsAfter(scans[scanno], bits);
    }
    assert scans[..|scans|] == scans;
    for ci := 0 to n
      invariant forall i :: 0 <= i < ci ==> bits[i][0] >= 0
    {
      if a[ci, 0] < 0 { return false; }
    }
    ok := true;
  }

  lemma RunStep(n: nat, scans: seq<Scan>, i: nat)
    requires i < |scans|
    ensures Run(n, scans[..i]).Some? ==>
      var bits := Run(n, scans[..i]).value;
      Run(n, scans[..i + 1]) == if ScanOk(scans[i], bits) then Some(BitsAfter(scans[i], bits)) else None
    ensures Run(n, scans[..i + 1]).None? ==> Run(n, scans).None?
  {
    hide ScanOk, BitsAfter;
    assert scans[..i + 1][..i] == scans[..i];
    if Run(n, scans).Some? { RunPrefix(n, scans, i); }
  }

  /** Components must not be sent twice. */
  method MarkSent(sent: array<bool>, n: nat, s: Scan) returns (ok: bool)
    requires n <= sent.Length && IndexesOk(s, n)
    modifies sent
    ensures ok <==> forall i :: 0 <= i < |s.comps| ==> !old(sent[s.comps[i]])
    ensures ok ==> forall ci :: 0 <= ci < sent.Length ==> sent[ci] == (old(sent[ci]) || ci in s.comps)
  {
    hide IndexesOk;
    InRangeIndexes(s, n);
    for i := 0 to |s.comps|
      invariant forall j :: 0 <= j < i ==> !old(sent[s.comps[j]])
      invariant forall ci :: 0 <= ci < sent.Length ==> sent[ci] == (old(sent[ci]) || ci in s.comps[..i])
    {
      NotBefore(s, n, i);
      assert s.comps[..i + 1] == s.comps[..i] + [s.comps[i]];
      if sent[s.comps[i]] { return false; }
      sent[s.comps[i]] := true;
    }
    assert s.comps[..|s.comps|] == s.comps;
    ok := true;
  }

  lemma InRangeIndexes(s: Scan, n: nat)
    requires IndexesOk(s, n)
    ensures forall i :: 0 <= i < |s.comps| ==> 0 <= s.comps[i] < n
  {
  }

  lemma NotBefore(s: Scan, n: nat, i: nat)
    requires IndexesOk(s, n) && i < |s.comps|
    ensures s.comps[i] !in s.comps[..i]
  {
    if s.comps[i] in s.comps[..i] {
      var j :| 0 <= j < i && s.comps[..i][j] == s.comps[i];
      AscendingFrom(s, n, j, i);
    }
  }

  /** What no earlier scan has sent, this scan does not repeat. */
  lemma NotRepeated(scans: seq<Scan>, i: nat)
    requires i < |scans| && forall k :: 0 <= k < |scans[i].comps| ==> !Sends(scans[..i], scans[i].comps[k])
    ensures forall j, ci :: 0 <= j < i && ci in scans[j].comps ==> ci !in scans[i].comps
  {
    forall j, ci | 0 <= j < i && ci in scans[j].comps ensures ci !in scans[i].comps {
      assert ci in scans[..i][j].comps;
      assert Sends(scans[..i], ci);
    }
  }

  lemma SendsNext(scans: seq<Scan>, i: nat)
    requires i < |scans|
    ensures forall ci {:trigger Sends(scans[..i + 1], ci)} :: Sends(scans[..i + 1], ci) <==> Sends(scans[..i], ci) || ci in scans[i].comps
  {
    forall ci: int ensures Sends(scans[..i + 1], ci) <==> Sends(scans[..i], ci) || ci in scans[i].comps {
      if Sends(scans[..i], ci) {
        var j :| 0 <= j < i && ci in scans[..i][j].comps;
        assert ci in scans[..i + 1][j].comps;
      }
      if ci in scans[i].comps { assert ci in scans[..i + 1][i].comps; }
    }
  }

  lemma Repeated(scans: seq<Scan>, i: nat, n: nat)
    requires i < |scans| && exists k :: 0 <= k < |scans[i].comps| && Sends(scans[..i], scans[i].comps[k])
    ensures !SequentialOk(n, scans)
  {
    hide IndexesOk;
    var k :| 0 <= k < |scans[i].comps| && Sends(scans[..i], scans[i].comps[k]);
    var j :| 0 <= j < i && scans[i].comps[k] in scans[..i][j].comps;
    assert scans[i].comps[k] in scans[j].comps;
  }

  /** The sequential path of validate_script. */
  method ValidateSequential(n: nat, scans: seq<Scan>) returns (ok: bool)
    requires n <= MAX_COMPONENTS
    ensures ok <==> SequentialOk(n, scans)
  {
    hide IndexesOk;
    var sent := new bool[MAX_COMPONENTS](_ => false);
    for scanno := 0 to |scans|
      invariant forall i :: 0 <= i < scanno ==>
        IndexesOk(scans[i], n) && scans[i].ss == 0 && scans[i].se == 63 && scans[i].ah == 0 && scans[i].al == 0
      invariant forall ci :: 0 <= ci < n ==> (sent[ci] <==> Sends(scans[..scanno], ci))
      invariant forall i, j, ci :: 0 <= i < j < scanno && ci in scans[i].comps ==> ci !in scans[j].comps
    {
      var s := scans[scanno];
      ok := CheckIndexes(s, n);
      if !ok { return; }
      if s.ss != 0 || s.se != 63 || s.ah != 0 || s.al != 0 { return false; }
      InRangeIndexes(s, n);
      ok := MarkSent(sent, n, s);
      if !ok {
        Repeated(scans, scanno, n);
        return;
      }
      NotRepeated(scans, scanno);
      SendsNext(scans, scanno);
    }
    assert scans[..|scans|] == scans;
    for ci := 0 to n
      invariant forall i :: 0 <= i < ci ==> sent[i]
    {
      if !sent[ci] { return false; }
    }
    ok := true;
  }

  /** validate_script */
  method ValidateScript(n: nat, scans: seq<Scan>) returns (ok: bool, progressive: bool)
    requires n <= MAX_COMPONENTS
    ensures ok <==> Accepted(n, scans)
    ensures ok ==> progressive == Progressive(scans)
    ensures scans != [] && Progressive(scans) ==> (ok <==> InOrder(n, scans))
  {
    hide InOrder;
    if scans != [] && Progressive(scans) { AcceptedHistory(n, scans); }
    progressive := false;
    if |scans| <= 0 { return false, false; }
    progressive := scans[0].ss != 0 || scans[0].se != 63;
    if progressive {
      ok := ValidateProgressive(n, scans);
    } else {
      ok := ValidateSequential(n, scans);
    }
  }

  // ---------- start_pass_phuff_decoder ----------

  /** The errors it raises. */
  predicate BadProgression(s: Scan) {
    || (if s.ss == 0 then s.se != 0 else s.ss > s.se || s.se >= 64 || |s.comps| != 1)
    || (s.ah != 0 && s.al != s.ah - 1)
    || s.al > 13
  }

  /** What it takes not to warn about a component. */
  predicate Expected(s: Scan, row: Row) {
    (s.ss != 0 ==> row[0] >= 0) && forall k :: 0 <= s.ss <= k <= s.se < 64 ==> s.ah == if row[k] < 0 then 0 else row[k]
  }

  /** The checks of start_pass_phuff_decoder on coef_bits.  A scan of an accepted script raises no error
      and no warning, and leaves coef_bits as validate_script left its own table. */
  method StartPass(s: Scan, coefBits: array2<int>, ghost bits: Positions) returns (bad: bool, warnings: nat)
    requires Holds(coefBits, bits) && s.ss >= 0 && forall i :: 0 <= i < |s.comps| ==> 0 <= s.comps[i] < |bits|
    requires forall i, j :: 0 <= i < j < |s.comps| ==> s.comps[i] != s.comps[j]
    modifies coefBits
    ensures bad <==> BadProgression(s)
    ensures bad <==> (s.ss == 0 && s.se != 0) || (s.ss > 0 && (s.ss > s.se || s.se > 63 || |s.comps| != 1)) || (s.ah != 0 && s.al != s.ah - 1) || s.al > 13
    ensures !bad ==> (warnings == 0 <==> forall i :: 0 <= i < |s.comps| ==> Expected(s, bits[s.comps[i]]))
    ensures !bad ==> Holds(coefBits, BitsAfter(s, bits))
    ensures ScanOk(s, bits) ==> !bad && warnings == 0
  {
    hide Expected, RowAfter, RowOk;
    var isDcBand := s.ss == 0;
    bad, warnings := false, 0;
    if isDcBand {
      if s.se != 0 { bad := true; }
    } else {
      if s.ss > s.se || s.se >= 64 { bad := true; }
      if |s.comps| != 1 { bad := true; }
    }
    if s.ah != 0 {
      if s.al != s.ah - 1 { bad := true; }
    }
    if s.al > 13 { bad := true; }
    if ScanOk(s, bits) { AcceptedExpected(s, bits); }
    if bad { return; }
    for ci := 0 to |s.comps|
      invariant warnings == 0 <==> forall i :: 0 <= i < ci ==> Expected(s, bits[s.comps[i]])
      invariant forall i, k :: 0 <= i < ci && 0 <= k < 64 ==> coefBits[s.comps[i], k] == RowAfter(s, bits[s.comps[i]])[k]
      invariant forall c, k :: 0 <= c < |bits| && 0 <= k < 64 && c !in s.comps[..ci] ==> coefBits[c, k] == bits[c][k]
    {
      var more := UpdateRow(s, coefBits, s.comps[ci], bits[s.comps[ci]]);
      warnings := warnings + more;
    }
  }

  /** One component: count the warnings, note the new Al. */
  method UpdateRow(s: Scan, a: array2<int>, cindex: nat, ghost row: Row) returns (warnings: nat)
    requires 0 <= s.ss <= s.se < 64 && cindex < a.Length0 && a.Length1 == 64 && forall k :: 0 <= k < 64 ==> a[cindex, k] == row[k]
    modifies a
    ensures warnings == 0 <==> Expected(s, row)
    ensures forall k :: 0 <= k < 64 ==> a[cindex, k] == RowAfter(s, row)[k]
    ensures forall j, k :: 0 <= j < a.Length0 && 0 <= k < 64 && j != cindex ==> a[j, k] == old(a[j, k])
  {
    warnings := 0;
    if s.ss != 0 && a[cindex, 0] < 0 { warnings := 1; }
    for coefi := s.ss to s.se + 1
      invariant warnings == 0 <==> (s.ss != 0 ==> row[0] >= 0) && forall k :: s.ss <= k < coefi ==> s.ah == if row[k] < 0 then 0 else row[k]
      invariant forall k :: 0 <= k < 64 ==> a[cindex, k] == if s.ss <= k < coefi then s.al else row[k]
      invariant forall j, k :: 0 <= j < a.Length0 && 0 <= k < 64 && j != cindex ==> a[j, k] == old(a[j, k])
    {
      var expected := if a[cindex, coefi] < 0 then 0 else a[cindex, coefi];
      if s.ah != expected { warnings := warnings + 1; }
      a[cindex, coefi] := s.al;
    }
  }

  /** What get_sos and start_input_pass see to: known components, each of them once. */
  predicate Plausible(s: Scan, n: nat) {
    && s.ss >= 0 && (forall i :: 0 <= i < |s.comps| ==> 0 <= s.comps[i] < n)
    && forall i, j :: 0 <= i < j < |s.comps| ==> s.comps[i] != s.comps[j]
  }

  /** start_pass_phuff_decoder before every scan of a file: for an accepted script no error and no warning
      from the first scan to the last, and coef_bits ends where validate_script's table does. */
  method StartPasses(n: nat, scans: seq<Scan>, coefBits: array2<int>) returns (bad: bool, warnings: nat)
    requires Holds(coefBits, Unsent(n)) && forall i :: 0 <= i < |scans| ==> Plausible(scans[i], n)
    modifies coefBits
    ensures Run(n, scans).Some? ==> !bad && warnings == 0 && Holds(coefBits, Run(n, scans).value)
    ensures scans != [] && Progressive(scans) && Accepted(n, scans) ==> !bad && warnings == 0
  {
    hide ScanOk, BitsAfter, BadProgression, Expected, Run;
    bad, warnings := false, 0;
    ghost var bits := Unsent(n);
    NothingRun(n);
    for i := 0 to |scans|
      invariant !bad && |bits| == n && Holds(coefBits, bits)
      invariant Run(n, scans[..i]).Some? ==> warnings == 0 && Run(n, scans[..i]).value == bits
    {
      var more;
      RunStep(n, scans, i);
      RunBefore(n, scans, i);
      assert Plausible(scans[i], n);
      bad, more := StartPass(scans[i], coefBits, bits);
      if bad { return; }
      warnings := warnings + more;
      bits := BitsAfter(scans[i], bits);
    }
    assert scans[..|scans|] == scans;
  }

  lemma NothingRun(n: nat)
    ensures Run(n, []) == Some(Unsent(n))
  {
  }

  lemma RunBefore(n: nat, scans: seq<Scan>, i: nat)
    requires i < |scans|
    ensures Run(n, scans[..i + 1]).Some? ==> Run(n, scans[..i]).Some?
    ensures Run(n, scans).Some? ==> Run(n, scans[..i]).Some? && Run(n, scans[..i + 1]).Some?
  {
    hide ScanOk, BitsAfter;
    if Run(n, scans[..i + 1]).Some? { RunPrefix(n, scans[..i + 1], i); assert scans[..i + 1][..i] == scans[..i]; }
    if Run(n, scans).Some? { RunPrefix(n, scans, i); }
  }

  lemma AcceptedExpected(s: Scan, bits: Positions)
    requires ScanOk(s, bits)
    ensures !BadProgression(s) && forall i :: 0 <= i < |s.comps| ==> Expected(s, bits[s.comps[i]])
  {
    var row := bits[s.comps[0]];
    assert RowOk(s, row) && StepOk(s, row[s.ss]);
    forall i | 0 <= i < |s.comps| ensures Expected(s, bits[s.comps[i]]) {
      assert RowOk(s, bits[s.comps[i]]);
    }
  }

  // ---------- jpeg_simple_progression ----------

  function One(ci: int, ss: int, se: int, ah: int, al: int): Scan { Scan([ci], ss, se, ah, al) }

  /** fill_scans */
  function Singles(n: nat, ss: int, se: int, ah: int, al: int): seq<Scan> {
    seq(n, ci => One(ci, ss, se, ah, al))
  }

  /** fill_dc_scans */
  function DcScans(n: nat, ah: int, al: int): seq<Scan> {
    if n <= MAX_COMPS_IN_SCAN then [Scan(seq(n, ci => ci), 0, 0, ah, al)] else Singles(n, 0, 0, ah, al)
  }

  function YccScript(): seq<Scan> {
    DcScans(3, 0, 1) + [One(0, 1, 5, 0, 2)] + [One(2, 1, 63, 0, 1)] + [One(1, 1, 63, 0, 1)] + [One(0, 6, 63, 0, 2)]
    + [One(0, 1, 63, 2, 1)] + DcScans(3, 1, 0) + [One(2, 1, 63, 1, 0)] + [One(1, 1, 63, 1, 0)] + [One(0, 1, 63, 1, 0)]
  }

  function PlainScript(n: nat): seq<Scan> {
    DcScans(n, 0, 1) + Singles(n, 1, 5, 0, 2) + Singles(n, 6, 63, 0, 2) + Singles(n, 1, 63, 2, 1)
    + DcScans(n, 1, 0) + Singles(n, 1, 63, 1, 0)
  }

  method FillAScan(a: array<Scan>, pos: nat, ci: int, ss: int, se: int, ah: int, al: int) returns (next: nat)
    requires pos < a.Length
    modifies a
    ensures next == pos + 1 && a[..next] == old(a[..pos]) + [One(ci, ss, se, ah, al)]
  {
    a[pos] := Scan([ci], ss, se, ah, al);
    next := pos + 1;
  }

  method FillScans(a: array<Scan>, pos: nat, n: nat, ss: int, se: int, ah: int, al: int) returns (next: nat)
    requires pos + n <= a.Length
    modifies a
    ensures next == pos + n && a[..next] == old(a[..pos]) + Singles(n, ss, se, ah, al)
  {
    next := pos;
    for ci := 0 to n
      invariant next == pos + ci && a[..next] == old(a[..pos]) + Singles(ci, ss, se, ah, al)
    {
      a[next] := Scan([ci], ss, se, ah, al);
      next := next + 1;
    }
  }

  method FillDcScans(a: array<Scan>, pos: nat, n: nat, ah: int, al: int) returns (next: nat)
    requires pos + |DcScans(n, ah, al)| <= a.Length
    modifies a
    ensures next == pos + |DcScans(n, ah, al)| && a[..next] == old(a[..pos]) + DcScans(n, ah, al)
  {
    if n <= MAX_COMPS_IN_SCAN {
      a[pos] := Scan(seq(n, ci => ci), 0, 0, ah, al);
      next := pos + 1;
    } else {
      next := FillScans(a, pos, n, 0, 0, ah, al);
    }
  }

  /** The custom script for YCbCr. */
  method FillYcc(script: array<Scan>)
    requires script.Length == 10
    modifies script
    ensures script[..] == YccScript()
  {
    hide DcScans, One;
    DcLength(3);
    assert script[..0] == [];
    var pos := FillDcScans(script, 0, 3, 0, 1);
    pos := FillAScan(script, pos, 0, 1, 5, 0, 2);
    pos := FillAScan(script, pos, 2, 1, 63, 0, 1);
    pos := FillAScan(script, pos, 1, 1, 63, 0, 1);
    pos := FillAScan(script, pos, 0, 6, 63, 0, 2);
    pos := FillAScan(script, pos, 0, 1, 63, 2, 1);
    pos := FillDcScans(script, pos, 3, 1, 0);
    pos := FillAScan(script, pos, 2, 1, 63, 1, 0);
    pos := FillAScan(script, pos, 1, 1, 63, 1, 0);
    pos := FillAScan(script, pos, 0, 1, 63, 1, 0);
    assert script[..] == script[..pos];
  }

  /** The all-purpose script. */
  method FillPlain(script: array<Scan>, ncomps: nat)
    requires script.Length == if ncomps > MAX_COMPS_IN_SCAN then 6 * ncomps else 2 + 4 * ncomps
    modifies script
    ensures script[..] == PlainScript(ncomps)
  {
    hide DcScans, Singles;
    DcLength(ncomps);
    assert script[..0] == [];
    var pos := FillDcScans(script, 0, ncomps, 0, 1);
    pos := FillScans(script, pos, ncomps, 1, 5, 0, 2);
    pos := FillScans(script, pos, ncomps, 6, 63, 0, 2);
    pos := FillScans(script, pos, ncomps, 1, 63, 2, 1);
    pos := FillDcScans(script, pos, ncomps, 1, 0);
    pos := FillScans(script, pos, ncomps, 1, 63, 1, 0);
    assert script[..] == script[..pos];
  }

  /** All components in order. */
  predicate Everyone(comps: seq<int>, n: nat) { |comps| == n && forall i :: 0 <= i < n ==> comps[i] == i }

  /** One scan per component. */
  predicate Each(scans: seq<Scan>, from: nat, n: nat, ss: int, se: int, ah: int, al: int)
    requires from + n <= |scans|
  {
    forall i :: 0 <= i < n ==> scans[from + i] == Scan([i], ss, se, ah, al)
  }

  /** The scans recommended for YCbCr. */
  const YCC_SCANS: seq<Scan> := [
    Scan([0, 1, 2], 0, 0, 0, 1), Scan([0], 1, 5, 0, 2), Scan([2], 1, 63, 0, 1), Scan([1], 1, 63, 0, 1), Scan([0], 6, 63, 0, 2),
    Scan([0], 1, 63, 2, 1), Scan([0, 1, 2], 0, 0, 1, 0), Scan([2], 1, 63, 1, 0), Scan([1], 1, 63, 1, 0), Scan([0], 1, 63, 1, 0)]

  /** The scans recommended for anything else: DC but for its last bit, two bands but for two bits, one more bit, the
      last bit of DC, and the last bit.  More than four components cannot share the DC scans. */
  predicate PlainScans(scans: seq<Scan>, n: nat) {
    if n <= 4 then
      && |scans| == 2 + 4 * n
      && Everyone(scans[0].comps, n) && scans[0] == Scan(scans[0].comps, 0, 0, 0, 1)
      && Each(scans, 1, n, 1, 5, 0, 2) && Each(scans, 1 + n, n, 6, 63, 0, 2) && Each(scans, 1 + 2 * n, n, 1, 63, 2, 1)
      && Everyone(scans[1 + 3 * n].comps, n) && scans[1 + 3 * n] == Scan(scans[1 + 3 * n].comps, 0, 0, 1, 0)
      && Each(scans, 2 + 3 * n, n, 1, 63, 1, 0)
    else
      && |scans| == 6 * n
      && Each(scans, 0, n, 0, 0, 0, 1) && Each(scans, n, n, 1, 5, 0, 2) && Each(scans, 2 * n, n, 6, 63, 0, 2)
      && Each(scans, 3 * n, n, 1, 63, 2, 1) && Each(scans, 4 * n, n, 0, 0, 1, 0) && Each(scans, 5 * n, n, 1, 63, 1, 0)
  }

  lemma YccLiteral()
    ensures YccScript() == YCC_SCANS
  {
    assert seq(3, ci => ci) == [0, 1, 2];
  }

  lemma EachAt(pre: seq<Scan>, n: nat, ss: int, se: int, ah: int, al: int, post: seq<Scan>)
    ensures Each(pre + Singles(n, ss, se, ah, al) + post, |pre|, n, ss, se, ah, al)
  {
    var s, all := Singles(n, ss, se, ah, al), pre + Singles(n, ss, se, ah, al) + post;
    forall i | 0 <= i < n ensures all[|pre| + i] == Scan([i], ss, se, ah, al) { assert all[|pre| + i] == s[i]; }
  }

  /** A DC scan of all components, or one for each. */
  lemma DcAt(pre: seq<Scan>, n: nat, ah: int, al: int, post: seq<Scan>)
    ensures var all, k := pre + DcScans(n, ah, al) + post, |pre|;
      if n <= 4 then Everyone(all[k].comps, n) && all[k] == Scan(all[k].comps, 0, 0, ah, al) else Each(all, k, n, 0, 0, ah, al)
  {
    if n > 4 { EachAt(pre, n, 0, 0, ah, al, post); }
  }

  lemma SinglesLength(n: nat)
    ensures forall ss, se, ah, al :: |Singles(n, ss, se, ah, al)| == n
  {
  }

  /** Six groups with any of them in the middle. */
  lemma Regroup(a: seq<Scan>, b: seq<Scan>, c: seq<Scan>, d: seq<Scan>, e: seq<Scan>, f: seq<Scan>)
    ensures var all := a + b + c + d + e + f;
      && all == [] + a + (b + c + d + e + f) && all == a + b + (c + d + e + f) && all == a + b + c + (d + e + f)
      && all == a + b + c + d + (e + f) && all == a + b + c + d + e + f + []
  {
  }

  lemma PlainLiteral(n: nat)
    ensures PlainScans(PlainScript(n), n)
  {
    hide DcScans, Singles, Everyone, Each;
    DcLength(n);
    SinglesLength(n);
    var d0, s1, s2 := DcScans(n, 0, 1), Singles(n, 1, 5, 0, 2), Singles(n, 6, 63, 0, 2);
    var s3, d4, s5 := Singles(n, 1, 63, 2, 1), DcScans(n, 1, 0), Singles(n, 1, 63, 1, 0);
    Regroup(d0, s1, s2, s3, d4, s5);
    DcAt([], n, 0, 1, s1 + s2 + s3 + d4 + s5);
    EachAt(d0, n, 1, 5, 0, 2, s2 + s3 + d4 + s5);
    EachAt(d0 + s1, n, 6, 63, 0, 2, s3 + d4 + s5);
    EachAt(d0 + s1 + s2, n, 1, 63, 2, 1, d4 + s5);
    DcAt(d0 + s1 + s2 + s3, n, 1, 0, s5);
    EachAt(d0 + s1 + s2 + s3 + d4, n, 1, 63, 1, 0, []);
  }

  /** jpeg_simple_progression: the script fills exactly the space computed for it. */
  method JpegSimpleProgression(ncomps: nat, ycc: bool) returns (script: array<Scan>)
    ensures script[..] == if ncomps == 3 && ycc then YccScript() else PlainScript(ncomps)
    ensures if ncomps == 3 && ycc then script[..] == YCC_SCANS else PlainScans(script[..], ncomps)
    ensures Gradual(script[..])
    ensures fresh(script)
  {
    hide YccScript, PlainScript, PlainScans, YCC_SCANS, Gradual;
    YccLiteral();
    PlainLiteral(ncomps);
    YccGradual();
    PlainGradual(PlainScript(ncomps), ncomps);
    var nscans := if ncomps == 3 && ycc then 10 else if ncomps > MAX_COMPS_IN_SCAN then 6 * ncomps else 2 + 4 * ncomps;
    script := new Scan[nscans](_ => One(0, 0, 0, 0, 0));
    if ncomps == 3 && ycc {
      FillYcc(script);
    } else {
      FillPlain(script, ncomps);
    }
  }

  /** Of two scans with a coefficient in common the later one has the finer precision, and the first scans of a
      component's AC coefficients come in ascending order of their bands. */
  predicate Gradual(scans: seq<Scan>) {
    forall i, j, c :: 0 <= i < j < |scans| && c in scans[i].comps && c in scans[j].comps ==>
      && (scans[i].ss <= scans[j].se && scans[j].ss <= scans[i].se ==> scans[j].al < scans[i].al)
      && (scans[i].ah == 0 && scans[j].ah == 0 ==> scans[i].se < scans[j].ss)
  }

  /** The scans of one component. */
  lemma YccOrder(i: nat, j: nat, c: int)
    requires i < j < 10 && c in YCC_SCANS[i].comps && c in YCC_SCANS[j].comps
    ensures c == 0 || c == 1 || c == 2
    ensures YCC_SCANS[i].ss <= YCC_SCANS[j].se && YCC_SCANS[j].ss <= YCC_SCANS[i].se ==> YCC_SCANS[j].al < YCC_SCANS[i].al
    ensures YCC_SCANS[i].ah == 0 && YCC_SCANS[j].ah == 0 ==> YCC_SCANS[i].se < YCC_SCANS[j].ss
  {
    var s, t := YCC_SCANS[i], YCC_SCANS[j];
    if i == 0 || i == 6 {
      assert s.ss == 0 && s.se == 0;
    } else {
      assert s.comps == [s.comps[0]];
    }
  }

  lemma YccGradual()
    ensures Gradual(YCC_SCANS)
  {
    hide YCC_SCANS;
    YccCount();
    forall i, j, c | 0 <= i < j < |YCC_SCANS| && c in YCC_SCANS[i].comps && c in YCC_SCANS[j].comps
      ensures YCC_SCANS[i].ss <= YCC_SCANS[j].se && YCC_SCANS[j].ss <= YCC_SCANS[i].se ==> YCC_SCANS[j].al < YCC_SCANS[i].al
      ensures YCC_SCANS[i].ah == 0 && YCC_SCANS[j].ah == 0 ==> YCC_SCANS[i].se < YCC_SCANS[j].ss
    {
      YccOrder(i, j, c);
    }
  }

  lemma YccCount()
    ensures |YCC_SCANS| == 10
  {
  }

  /** The place of a scan in the general script: which component, and which of the six groups. */
  predicate InGroup(s: Scan, g: nat) {
    match g
    case 0 => s.ss == 0 && s.se == 0 && s.ah == 0 && s.al == 1
    case 1 => s.ss == 1 && s.se == 5 && s.ah == 0 && s.al == 2
    case 2 => s.ss == 6 && s.se == 63 && s.ah == 0 && s.al == 2
    case 3 => s.ss == 1 && s.se == 63 && s.ah == 2 && s.al == 1
    case 4 => s.ss == 0 && s.se == 0 && s.ah == 1 && s.al == 0
    case _ => s.ss == 1 && s.se == 63 && s.ah == 1 && s.al == 0
  }

  /** Where the groups start. */
  function Starts(n: nat): (s: seq<nat>)
    ensures |s| == 7
  {
    if n <= 4 then [0, 1, 1 + n, 1 + 2 * n, 1 + 3 * n, 2 + 3 * n, 2 + 4 * n] else [0, n, 2 * n, 3 * n, 4 * n, 5 * n, 6 * n]
  }

  lemma GroupOf(scans: seq<Scan>, n: nat, i: nat) returns (g: nat)
    requires PlainScans(scans, n) && i < |scans|
    ensures g < 6 && InGroup(scans[i], g) && Starts(n)[g] <= i < Starts(n)[g + 1]
    ensures Starts(n)[g + 1] == Starts(n)[g] + 1 || scans[i].comps == [i - Starts(n)[g]]
  {
    var s := Starts(n);
    g := if i < s[1] then 0 else if i < s[2] then 1 else if i < s[3] then 2 else if i < s[4] then 3 else if i < s[5] then 4 else 5;
    assert n > 4 || g == 1 || g == 2 || g == 3 || g == 5 ==> scans[s[g] + (i - s[g])].comps == [i - s[g]];
  }

  lemma PlainGradual(scans: seq<Scan>, n: nat)
    requires PlainScans(scans, n)
    ensures Gradual(scans)
  {
    hide PlainScans;
    forall i, j, c | 0 <= i < j < |scans| && c in scans[i].comps && c in scans[j].comps
      ensures scans[i].ss <= scans[j].se && scans[j].ss <= scans[i].se ==> scans[j].al < scans[i].al
      ensures scans[i].ah == 0 && scans[j].ah == 0 ==> scans[i].se < scans[j].ss
    {
      var g := GroupOf(scans, n, i);
      var h := GroupOf(scans, n, j);
    }
  }

  lemma DcLength(n: nat)
    ensures forall ah, al :: |DcScans(n, ah, al)| == if n <= MAX_COMPS_IN_SCAN then 1 else n
  {
  }

  // ---------- that script is accepted and complete ----------

  /** Rows in three pieces: DC, the first five AC coefficients, the rest. */
  function Pieces(d: int, a: int, b: int): Row {
    seq(64, k => if k == 0 then d else if k <= 5 then a else b)
  }

  lemma PiecesAfter(s: Scan, d: int, a: int, b: int)
    ensures s.ss == 0 && s.se == 0 ==> RowAfter(s, Pieces(d, a, b)) == Pieces(s.al, a, b)
    ensures s.ss == 1 && s.se == 5 ==> RowAfter(s, Pieces(d, a, b)) == Pieces(d, s.al, b)
    ensures s.ss == 6 && s.se == 63 ==> RowAfter(s, Pieces(d, a, b)) == Pieces(d, a, s.al)
    ensures s.ss == 1 && s.se == 63 ==> RowAfter(s, Pieces(d, a, b)) == Pieces(d, s.al, s.al)
  {
  }

  lemma PiecesOk(s: Scan, d: int, a: int, b: int)
    requires ParametersOk(s)
    ensures s.ss == 0 && s.se == 0 && StepOk(s, d) ==> RowOk(s, Pieces(d, a, b))
    ensures s.ss == 1 && s.se == 5 && d >= 0 && StepOk(s, a) ==> RowOk(s, Pieces(d, a, b))
    ensures s.ss == 6 && s.se == 63 && d >= 0 && StepOk(s, b) ==> RowOk(s, Pieces(d, a, b))
    ensures s.ss == 1 && s.se == 63 && d >= 0 && StepOk(s, a) && StepOk(s, b) ==> RowOk(s, Pieces(d, a, b))
  {
  }

  lemma RunNext(n: nat, pre: seq<Scan>, s: Scan, bits: Positions)
    requires Run(n, pre) == Some(bits) && ScanOk(s, bits)
    ensures Run(n, pre + [s]) == Some(BitsAfter(s, bits))
  {
    hide ScanOk, BitsAfter;
    assert (pre + [s])[..|pre|] == pre;
  }

  /** The first j components one step on. */
  function PartAfter(s: Scan, bits: Positions, j: nat): Positions {
    seq(|bits|, ci requires 0 <= ci < |bits| => if ci < j then RowAfter(s, bits[ci]) else bits[ci])
  }

  /** One scan for each component takes every component one step on. */
  lemma {:induction false} SinglesRun(n: nat, pre: seq<Scan>, ss: int, se: int, ah: int, al: int, bits: Positions, j: nat)
    requires Run(n, pre) == Some(bits) && j <= n == |bits| && ParametersOk(One(0, ss, se, ah, al))
    requires forall ci :: 0 <= ci < n ==> RowOk(One(0, ss, se, ah, al), bits[ci])
    ensures Run(n, pre + Singles(j, ss, se, ah, al)) == Some(PartAfter(One(0, ss, se, ah, al), bits, j))
  {
    hide Run;
    var now := PartAfter(One(0, ss, se, ah, al), bits, j);
    if j == 0 {
      assert pre + Singles(j, ss, se, ah, al) == pre && now == bits;
    } else {
      SinglesRun(n, pre, ss, se, ah, al, bits, j - 1);
      var was := PartAfter(One(0, ss, se, ah, al), bits, j - 1);
      var s := One(j - 1, ss, se, ah, al);
      RunNext(n, pre + Singles(j - 1, ss, se, ah, al), s, was);
      assert pre + Singles(j, ss, se, ah, al) == pre + Singles(j - 1, ss, se, ah, al) + [s];
      assert BitsAfter(s, was) == now;
    }
  }

  /** All components in the same place. */
  function Even(n: nat, d: int, a: int, b: int): Positions { seq(n, _ => Pieces(d, a, b)) }

  lemma EvenSingles(n: nat, pre: seq<Scan>, s: Scan, d: int, a: int, b: int)
    requires s.comps == [0] && ParametersOk(s) && Run(n, pre) == Some(Even(n, d, a, b)) && RowOk(s, Pieces(d, a, b))
    ensures Run(n, pre + Singles(n, s.ss, s.se, s.ah, s.al)) == Some(seq(n, _ => RowAfter(s, Pieces(d, a, b))))
  {
    hide Run, RowOk, Singles, Pieces;
    assert s == One(0, s.ss, s.se, s.ah, s.al);
    SinglesRun(n, pre, s.ss, s.se, s.ah, s.al, Even(n, d, a, b), n);
    assert PartAfter(s, Even(n, d, a, b), n) == seq(n, _ => RowAfter(s, Pieces(d, a, b)));
  }

  /** An AC band for every component. */
  lemma EvenAc(n: nat, pre: seq<Scan>, ss: int, se: int, ah: int, al: int, d: int, a: int, b: int, a': int, b': int)
    requires Run(n, pre) == Some(Even(n, d, a, b)) && d >= 0 && ParametersOk(One(0, ss, se, ah, al))
    requires RowOk(One(0, ss, se, ah, al), Pieces(d, a, b)) && RowAfter(One(0, ss, se, ah, al), Pieces(d, a, b)) == Pieces(d, a', b')
    ensures Run(n, pre + Singles(n, ss, se, ah, al)) == Some(Even(n, d, a', b'))
  {
    hide Run, RowOk, RowAfter, Singles, Pieces;
    EvenSingles(n, pre, One(0, ss, se, ah, al), d, a, b);
    assert seq(n, _ => RowAfter(One(0, ss, se, ah, al), Pieces(d, a, b))) == Even(n, d, a', b');
  }

  /** The DC scan or scans. */
  lemma EvenDc(n: nat, pre: seq<Scan>, ah: int, al: int, d: int, a: int, b: int)
    requires 0 < n && Run(n, pre) == Some(Even(n, d, a, b)) && 0 <= ah <= MAX_AH_AL && 0 <= al <= MAX_AH_AL
    requires StepOk(One(0, 0, 0, ah, al), d)
    ensures Run(n, pre + DcScans(n, ah, al)) == Some(Even(n, al, a, b))
  {
    hide Run, Pieces, RowAfter, RowOk;
    if n <= MAX_COMPS_IN_SCAN {
      var s := Scan(seq(n, ci => ci), 0, 0, ah, al);
      PiecesOk(s, d, a, b);
      PiecesAfter(s, d, a, b);
      RunNext(n, pre, s, Even(n, d, a, b));
      forall ci | 0 <= ci < n ensures ci in s.comps { assert s.comps[ci] == ci; }
      assert BitsAfter(s, Even(n, d, a, b)) == Even(n, al, a, b);
    } else {
      var s := One(0, 0, 0, ah, al);
      PiecesOk(s, d, a, b);
      PiecesAfter(s, d, a, b);
      EvenSingles(n, pre, s, d, a, b);
      assert seq(n, _ => RowAfter(s, Pieces(d, a, b))) == Even(n, al, a, b);
    }
  }

  lemma PlainRun(n: nat)
    requires 0 < n
    ensures Run(n, PlainScript(n)) == Some(Even(n, 0, 0, 0))
  {
    hide Run, DcScans, Singles, Pieces, RowOk, RowAfter;
    assert Run(n, []) == Some(Even(n, -1, -1, -1)) by { NoScans(n); }
    var p0 := DcScans(n, 0, 1);
    var p1 := p0 + Singles(n, 1, 5, 0, 2);
    var p2 := p1 + Singles(n, 6, 63, 0, 2);
    var p3 := p2 + Singles(n, 1, 63, 2, 1);
    var p4 := p3 + DcScans(n, 1, 0);
    EvenDc(n, [], 0, 1, -1, -1, -1);
    assert [] + p0 == p0;
    PiecesOk(One(0, 1, 5, 0, 2), 1, -1, -1);
    PiecesAfter(One(0, 1, 5, 0, 2), 1, -1, -1);
    EvenAc(n, p0, 1, 5, 0, 2, 1, -1, -1, 2, -1);
    PiecesOk(One(0, 6, 63, 0, 2), 1, 2, -1);
    PiecesAfter(One(0, 6, 63, 0, 2), 1, 2, -1);
    EvenAc(n, p1, 6, 63, 0, 2, 1, 2, -1, 2, 2);
    PiecesOk(One(0, 1, 63, 2, 1), 1, 2, 2);
    PiecesAfter(One(0, 1, 63, 2, 1), 1, 2, 2);
    EvenAc(n, p2, 1, 63, 2, 1, 1, 2, 2, 1, 1);
    EvenDc(n, p3, 1, 0, 1, 1, 1);
    PiecesOk(One(0, 1, 63, 1, 0), 0, 1, 1);
    PiecesAfter(One(0, 1, 63, 1, 0), 0, 1, 1);
    EvenAc(n, p4, 1, 63, 1, 0, 0, 1, 1, 0, 0);
  }

  lemma NoScans(n: nat)
    ensures Run(n, []) == Some(Even(n, -1, -1, -1))
  {
    assert seq(64, _ => -1) == Pieces(-1, -1, -1);
    assert Unsent(n) == Even(n, -1, -1, -1);
  }

  /** An AC scan of one of three components. */
  lemma Three(pre: seq<Scan>, s: Scan, r0: Row, r1: Row, r2: Row, ci: nat)
    requires Run(3, pre) == Some([r0, r1, r2]) && ci < 3 && s.comps == [ci] && ParametersOk(s)
    requires RowOk(s, [r0, r1, r2][ci])
    ensures Run(3, pre + [s]) == Some([r0, r1, r2][ci := RowAfter(s, [r0, r1, r2][ci])])
  {
    hide Run, RowOk, RowAfter;
    RunNext(3, pre, s, [r0, r1, r2]);
    assert BitsAfter(s, [r0, r1, r2]) == [r0, r1, r2][ci := RowAfter(s, [r0, r1, r2][ci])];
  }

  /** ... and a DC scan of all three. */
  lemma ThreeDc(pre: seq<Scan>, ah: int, al: int, r0: Row, r1: Row, r2: Row)
    requires Run(3, pre) == Some([r0, r1, r2]) && 0 <= ah <= MAX_AH_AL && 0 <= al <= MAX_AH_AL
    requires var s := One(0, 0, 0, ah, al);
      StepOk(s, r0[0]) && StepOk(s, r1[0]) && StepOk(s, r2[0])
    ensures var s := One(0, 0, 0, ah, al);
      Run(3, pre + DcScans(3, ah, al)) == Some([RowAfter(s, r0), RowAfter(s, r1), RowAfter(s, r2)])
  {
    hide Run;
    var s := Scan(seq(3, ci => ci), 0, 0, ah, al);
    forall ci | 0 <= ci < 3 ensures ci in s.comps { assert s.comps[ci] == ci; }
    RunNext(3, pre, s, [r0, r1, r2]);
    var o := One(0, 0, 0, ah, al);
    assert BitsAfter(s, [r0, r1, r2]) == [RowAfter(o, r0), RowAfter(o, r1), RowAfter(o, r2)];
  }

  lemma YccRun()
    ensures Run(3, YccScript()) == Some(Even(3, 0, 0, 0))
  {
    hide Run, DcScans, RowOk, RowAfter;
    NoScans(3);
    var w := Pieces(-1, -1, -1);
    assert Even(3, -1, -1, -1) == [w, w, w];
    var p0 := DcScans(3, 0, 1);
    ThreeDc([], 0, 1, w, w, w);
    assert [] + p0 == p0;
    PiecesAfter(One(0, 0, 0, 0, 1), -1, -1, -1);
    var p1 := YccPart(p0);
    assert p1 == p0 + [One(0, 1, 5, 0, 2)] + [One(2, 1, 63, 0, 1)] + [One(1, 1, 63, 0, 1)] + [One(0, 6, 63, 0, 2)] + [One(0, 1, 63, 2, 1)];
    var c := Pieces(1, 1, 1);
    ThreeDc(p1, 1, 0, c, c, c);
    PiecesAfter(One(0, 0, 0, 1, 0), 1, 1, 1);
    YccLast(p1 + DcScans(3, 1, 0));
  }

  /** Al for component ci. */
  lemma PieceStep(pre: seq<Scan>, s: Scan, r0: Row, r1: Row, r2: Row, ci: nat, d: int, a: int, b: int, a': int, b': int,
                  s0: Row, s1: Row, s2: Row)
    requires Run(3, pre) == Some([r0, r1, r2]) && ci < 3 && s.comps == [ci] && ParametersOk(s) && [r0, r1, r2][ci] == Pieces(d, a, b)
    requires d >= 0 && s.ss > 0
    requires (s.se == 63 && (s.ss == 1 || s.ss == 6)) || (s.ss == 1 && s.se == 5)
    requires s.ss == 1 ==> StepOk(s, a) && a' == s.al
    requires s.se == 63 ==> StepOk(s, b) && b' == s.al
    requires (s.ss == 6 ==> a' == a) && (s.se == 5 ==> b' == b)
    requires s0 == (if ci == 0 then Pieces(d, a', b') else r0) && s1 == (if ci == 1 then Pieces(d, a', b') else r1)
    requires s2 == if ci == 2 then Pieces(d, a', b') else r2
    ensures Run(3, pre + [s]) == Some([s0, s1, s2])
  {
    hide Run, RowOk, RowAfter, Pieces;
    PiecesOk(s, d, a, b);
    PiecesAfter(s, d, a, b);
    Three(pre, s, r0, r1, r2, ci);
    assert [s0, s1, s2] == [r0, r1, r2][ci := Pieces(d, a', b')];
  }

  lemma YccPart(p0: seq<Scan>) returns (p: seq<Scan>)
    requires Run(3, p0) == Some([Pieces(1, -1, -1), Pieces(1, -1, -1), Pieces(1, -1, -1)])
    ensures p == p0 + [One(0, 1, 5, 0, 2)] + [One(2, 1, 63, 0, 1)] + [One(1, 1, 63, 0, 1)] + [One(0, 6, 63, 0, 2)] + [One(0, 1, 63, 2, 1)]
    ensures Run(3, p) == Some([Pieces(1, 1, 1), Pieces(1, 1, 1), Pieces(1, 1, 1)])
  {
    hide Run, Pieces;
    var r, q, l, c := Pieces(1, -1, -1), Pieces(1, 2, -1), Pieces(1, 2, 2), Pieces(1, 1, 1);
    PieceStep(p0, One(0, 1, 5, 0, 2), r, r, r, 0, 1, -1, -1, 2, -1, q, r, r);
    var p1 := p0 + [One(0, 1, 5, 0, 2)];
    PieceStep(p1, One(2, 1, 63, 0, 1), q, r, r, 2, 1, -1, -1, 1, 1, q, r, c);
    var p2 := p1 + [One(2, 1, 63, 0, 1)];
    PieceStep(p2, One(1, 1, 63, 0, 1), q, r, c, 1, 1, -1, -1, 1, 1, q, c, c);
    var p3 := p2 + [One(1, 1, 63, 0, 1)];
    PieceStep(p3, One(0, 6, 63, 0, 2), q, c, c, 0, 1, 2, -1, 2, 2, l, c, c);
    var p4 := p3 + [One(0, 6, 63, 0, 2)];
    PieceStep(p4, One(0, 1, 63, 2, 1), l, c, c, 0, 1, 2, 2, 1, 1, c, c, c);
    p := p4 + [One(0, 1, 63, 2, 1)];
  }

  lemma YccLast(p0: seq<Scan>)
    requires Run(3, p0) == Some([Pieces(0, 1, 1), Pieces(0, 1, 1), Pieces(0, 1, 1)])
    ensures Run(3, p0 + [One(2, 1, 63, 1, 0)] + [One(1, 1, 63, 1, 0)] + [One(0, 1, 63, 1, 0)]) == Some(Even(3, 0, 0, 0))
  {
    hide Run, Pieces;
    var r, o := Pieces(0, 1, 1), Pieces(0, 0, 0);
    PieceStep(p0, One(2, 1, 63, 1, 0), r, r, r, 2, 0, 1, 1, 0, 0, r, r, o);
    PieceStep(p0 + [One(2, 1, 63, 1, 0)], One(1, 1, 63, 1, 0), r, r, o, 1, 0, 1, 1, 0, 0, r, o, o);
    PieceStep(p0 + [One(2, 1, 63, 1, 0)] + [One(1, 1, 63, 1, 0)], One(0, 1, 63, 1, 0), r, o, o, 0, 0, 1, 1, 0, 0, o, o, o);
    assert [o, o, o] == Even(3, 0, 0, 0);
  }

  /** The recommended scripts are accepted, and their scans are meant to achieve the original coefficients. */
  lemma SimpleScripts(ncomps: nat, ycc: bool, orig: Image)
    requires 0 < ncomps == |orig|
    ensures var scans := if ncomps == 3 && ycc then YccScript() else PlainScript(ncomps);
      && Accepted(ncomps, scans) && Progressive(scans)
      && Run(ncomps, scans).Some? && Achieved(orig, scans) == orig
  {
    hide Run, Achieved, DcScans, Singles;
    var scans := if ncomps == 3 && ycc then YccScript() else PlainScript(ncomps);
    if ncomps == 3 && ycc { YccRun(); } else { PlainRun(ncomps); }
    DcFirstScan(ncomps);
    var dec := Achieved(orig, scans);
    forall ci, b | 0 <= ci < |orig| && 0 <= b < |orig[ci]| ensures dec[ci][b] == orig[ci][b] {
      forall k | 0 <= k < 64 ensures dec[ci][b][k] == orig[ci][b][k] { AchievedExact(orig, scans, ci, b, k); }
    }
    forall ci | 0 <= ci < |orig| ensures dec[ci] == orig[ci] {
      assert |dec[ci]| == |orig[ci]|;
    }
  }

  lemma DcFirstScan(n: nat)
    requires n > 0
    ensures DcScans(n, 0, 1) != [] && DcScans(n, 0, 1)[0].ss == 0 && DcScans(n, 0, 1)[0].se == 0
  {
  }
}
