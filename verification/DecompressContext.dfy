// Context rows for the upsampler (jdmainct.c): two lists of row pointers into one workspace, so that row
// groups of neighbouring iMCU rows are adjacent without being copied.  One component; the components do not
// affect one another.
module DecompressContext {
  import opened Wrappers

  type Row = seq<int>

  // ---------- which row the upsampler sees ----------

  function Clamp(v: int, height: nat): nat
    requires height >= 1
  {
    if v < 0 then 0 else if v >= height then height - 1 else v
  }

  /** Row e of what is passed for row group k: a row group above, the group and one below. */
  function Place(rg: nat, k: nat, e: nat): int { k * rg - rg + e }

  /** The sample row that is seen there.  Dummy rows are seen below the group just before the last iMCU row,
      which starts at row tail. */
  function Source(rg: nat, height: nat, tail: nat, k: nat, e: nat): int
    requires height >= 1
  {
    var v := Place(rg, k, e);
    if k * rg + rg == tail && v >= 0 then v else Clamp(v, height)
  }

  /** The row seen is the nearest row of the image in all cases, just if the last iMCU row has all rows of a row
      group, or there is only one iMCU row. */
  lemma SeenIsNearest(rg: nat, m: nat, height: nat, tail: nat, total: nat)
    requires rg >= 1 && m >= 2 && total >= 1 && tail == (total - 1) * (m * rg) < height <= tail + m * rg
    ensures (forall k: nat, e: nat :: k * rg < height && e < 3 * rg ==> Source(rg, height, tail, k, e) == Clamp(Place(rg, k, e), height))
      <==> (total == 1 || height - tail >= rg)
  {
    if total > 1 && height - tail < rg {
      var k := (total - 1) * m - 1;
      TailGroup(rg, m, total);
      assert Source(rg, height, tail, k, 3 * rg - 1) == tail + rg - 1;
    }
    if total == 1 { assert tail == 0; }
  }

  lemma TailGroup(rg: nat, m: nat, total: nat)
    requires rg >= 1 && m >= 2 && total > 1
    ensures (total - 1) * m - 1 >= 0 && ((total - 1) * m - 1) * rg + rg == (total - 1) * (m * rg)
  {
    assert ((total - 1) * m) * rg == (total - 1) * (m * rg);
  }

  /** Whatever the height, the rows above, the rows of the group and the first row below are the nearest. */
  lemma FirstRowBelow(rg: nat, height: nat, tail: nat, k: nat, e: nat)
    requires rg >= 1 && tail < height && e <= 2 * rg
    ensures Source(rg, height, tail, k, e) == Clamp(Place(rg, k, e), height)
  {
  }

  /** Five rows in iMCU rows of two row groups of two rows: a dummy row is seen below the second group. */
  lemma DummyRowSeen()
    ensures Source(2, 5, 4, 1, 5) == 5 && Clamp(Place(2, 1, 5), 5) == 4
  {
  }

  // ---------- pointer lists ----------

  /** Row i of a list, whose first row group is at negative rows. */
  function X(s: seq<Row>, x: seq<nat>, rg: nat, i: int): Row {
    if 0 <= rg + i < |x| && x[rg + i] < |s| then s[x[rg + i]] else []
  }

  /** The M + 2 inner row groups of a list are the workspace in some order. */
  ghost predicate Covers(x: seq<nat>, rg: nat, h: nat) {
    && |x| == h + 4 * rg
    && (forall i: nat :: rg <= i < h + 3 * rg ==> x[i] < h + 2 * rg)
    && (forall i: nat, j: nat :: rg <= i < j < h + 3 * rg ==> x[i] != x[j])
  }

  /** The last two row groups of an iMCU row read with list x are at M and M + 1 in list y. */
  ghost predicate Saves(x: seq<nat>, y: seq<nat>, rg: nat, h: nat)
    requires |x| == |y| == h + 4 * rg && h >= 2 * rg
  {
    forall i: nat {:trigger y[i]} :: rg + h <= i < h + 3 * rg ==> y[i] == x[i - 2 * rg]
  }

  ghost predicate Core(x: seq<nat>, y: seq<nat>, rg: nat, h: nat) {
    rg >= 1 && h >= 2 * rg && Covers(x, rg, h) && Covers(y, rg, h) && Saves(x, y, rg, h) && Saves(y, x, rg, h)
  }

  /** Above row 0 is row group M + 1, below it row group 0. */
  ghost predicate Wrapped(x: seq<nat>, rg: nat, h: nat)
    requires |x| == h + 4 * rg
  {
    && (forall i: nat {:trigger x[i]} :: i < rg ==> x[i] == x[i + (h + 2 * rg)])
    && (forall i: nat {:trigger x[i]} :: h + 3 * rg <= i < h + 4 * rg ==> x[i] == x[i - (h + 2 * rg)])
  }

  /** Above row 0 is row 0. */
  ghost predicate Top(x: seq<nat>, rg: nat)
    requires |x| > rg
  {
    forall i: nat :: i < rg ==> x[i] == x[rg]
  }

  // ---------- contents ----------

  function NonNeg(v: int): nat { if v < 0 then 0 else v }

  /** Row i of the list shows row v + i of `fed`, or row 0 above it. */
  ghost predicate At(s: seq<Row>, x: seq<nat>, rg: nat, fed: seq<Row>, v: int, i: int) {
    NonNeg(v + i) < |fed| && X(s, x, rg, i) == fed[NonNeg(v + i)]
  }

  /** Rows lo to hi of the list show the rows of `fed` around row v. */
  ghost predicate Shows(s: seq<Row>, x: seq<nat>, rg: nat, fed: seq<Row>, v: int, lo: int, hi: int) {
    forall i: int :: lo <= i < hi ==> At(s, x, rg, fed, v, i)
  }

  /** The same, with the last row of the image repeated. */
  ghost predicate ShowsEnd(s: seq<Row>, x: seq<nat>, rg: nat, fed: seq<Row>, v: int, lo: int, hi: int, height: nat)
    requires height >= 1
  {
    height <= |fed| && forall i: int :: lo <= i < hi ==> X(s, x, rg, i) == fed[Clamp(v + i, height)]
  }

  /** An iMCU row comes in: s becomes t, with its rows behind the first h pointers. */
  ghost predicate Filled(s: seq<Row>, t: seq<Row>, x: seq<nat>, rg: nat, h: nat, rows: seq<Row>) {
    && |s| == |t| == h + 2 * rg && |rows| == h
    && (forall i: int :: 0 <= i < h ==> X(t, x, rg, i) == rows[i])
    && (forall i: int :: h <= i < h + 2 * rg ==> X(t, x, rg, i) == X(s, x, rg, i))
  }

  /** The first iMCU row. */
  lemma FilledFirst(s: seq<Row>, t: seq<Row>, x: seq<nat>, rg: nat, h: nat, rows: seq<Row>)
    requires rg >= 1 && h >= 2 * rg && Covers(x, rg, h) && Top(x, rg) && Filled(s, t, x, rg, h, rows)
    ensures Shows(t, x, rg, rows, 0, 0 - rg, h)
  {
    forall i: int | 0 - rg <= i < h ensures At(t, x, rg, rows, 0, i) {
      if i < 0 { assert X(t, x, rg, i) == X(t, x, rg, 0); }
    }
  }

  /** A later one leaves the saved row groups alone. */
  lemma FilledNext(s: seq<Row>, t: seq<Row>, x: seq<nat>, rg: nat, h: nat, fed: seq<Row>, rows: seq<Row>)
    requires rg >= 1 && h >= 2 * rg && |fed| >= h && Filled(s, t, x, rg, h, rows) && Shows(s, x, rg, fed, |fed| - 2 * rg - h, h, h + 2 * rg)
    ensures Shows(t, x, rg, fed + rows, |fed|, 0, h) && Shows(t, x, rg, fed + rows, |fed| - 2 * rg - h, h, h + 2 * rg)
  {
    var v := |fed| - 2 * rg - h;
    forall i: int | h <= i < h + 2 * rg ensures At(t, x, rg, fed + rows, v, i) { assert At(s, x, rg, fed, v, i); }
  }

  /** With the wraparound pointers, the postponed row group has its neighbours. */
  lemma AroundPostponed(s: seq<Row>, x: seq<nat>, rg: nat, h: nat, fed: seq<Row>, v: nat)
    requires rg >= 1 && h >= 2 * rg && Covers(x, rg, h) && Wrapped(x, rg, h) && v >= 2 * rg
    requires Shows(s, x, rg, fed, v, 0, h) && Shows(s, x, rg, fed, v - 2 * rg - h, h, h + 2 * rg)
    ensures Shows(s, x, rg, fed, v - 2 * rg - h, h, h + 3 * rg) && Shows(s, x, rg, fed, v, 0 - rg, h)
  {
    var u, k := v - 2 * rg - h, h + 2 * rg;
    forall i: int | k <= i < h + 3 * rg ensures At(s, x, rg, fed, u, i) {
      assert At(s, x, rg, fed, v, i - k);
      assert x[rg + i] == x[rg + i - k];
    }
    forall i: int | 0 - rg <= i < 0 ensures At(s, x, rg, fed, v, i) {
      assert At(s, x, rg, fed, u, i + k);
      assert x[rg + i] == x[rg + i + k];
    }
  }

  /** Switching lists keeps the last two row groups in view. */
  lemma Switch(s: seq<Row>, x: seq<nat>, y: seq<nat>, rg: nat, h: nat, fed: seq<Row>, v: nat)
    requires Core(x, y, rg, h) && Shows(s, x, rg, fed, v, h - 2 * rg, h)
    ensures Shows(s, y, rg, fed, v - 2 * rg, h, h + 2 * rg)
  {
    var u := v - 2 * rg;
    forall i: int | h <= i < h + 2 * rg ensures At(s, y, rg, fed, u, i) {
      assert At(s, x, rg, fed, v, i - 2 * rg);
      assert y[rg + i] == x[rg + i - 2 * rg];
    }
  }

  /** set_bottom_pointers: 2 rg more pointers to the last real row. */
  ghost predicate Bottom(x: seq<nat>, y: seq<nat>, rg: nat, left: nat) {
    && |y| == |x| && 1 <= left && left + 3 * rg <= |x|
    && (forall i: nat :: i < rg + left ==> y[i] == x[i])
    && (forall i: nat :: rg + left <= i < left + 3 * rg ==> y[i] == x[rg + left - 1])
  }

  lemma BottomShows(s: seq<Row>, x: seq<nat>, y: seq<nat>, rg: nat, h: nat, fed: seq<Row>, v: nat, height: nat)
    requires rg >= 1 && h >= 2 * rg && |x| == h + 4 * rg && v < height <= v + h && height <= |fed|
    requires Shows(s, x, rg, fed, v, 0 - rg, h) && Bottom(x, y, rg, height - v)
    ensures ShowsEnd(s, y, rg, fed, v, 0 - rg, height - v + 2 * rg, height)
  {
    forall i: int | 0 - rg <= i < height - v + 2 * rg ensures X(s, y, rg, i) == fed[Clamp(v + i, height)] {
      if i < height - v {
        assert At(s, x, rg, fed, v, i);
      } else {
        assert At(s, x, rg, fed, v, height - v - 1);
        assert y[rg + i] == x[rg + (height - v) - 1];
      }
    }
  }

  // ---------- windows ----------

  /** What is seen for row group k. */
  ghost predicate Right(w: seq<Row>, rg: nat, height: nat, tail: nat, fed: seq<Row>, k: nat)
    requires height >= 1
  {
    |w| == 3 * rg && forall e: nat :: e < 3 * rg ==> RightAt(w, rg, height, tail, fed, k, e)
  }

  ghost predicate RightAt(w: seq<Row>, rg: nat, height: nat, tail: nat, fed: seq<Row>, k: nat, e: nat)
    requires height >= 1 && e < |w|
  {
    0 <= Source(rg, height, tail, k, e) < |fed| && w[e] == fed[Source(rg, height, tail, k, e)]
  }

  predicate IsRow(w: Row, fed: seq<Row>, i: int) { 0 <= i < |fed| && w == fed[i] }

  /** Row group k with its own rows in the middle, the group above it before, and the row below it after; where the
      image has no such row, its first or its last. */
  ghost predicate Around(w: seq<Row>, fed: seq<Row>, rg: nat, height: nat, k: nat) {
    && |w| == 3 * rg && rg >= 1
    && (forall e: nat :: e < rg ==> IsRow(w[e], fed, if k == 0 then 0 else k * rg - rg + e))
    && (forall e: nat :: rg <= e < 2 * rg ==> IsRow(w[e], fed, if k * rg + (e - rg) < height then k * rg + (e - rg) else height - 1))
    && IsRow(w[2 * rg], fed, if k * rg + rg < height then k * rg + rg else height - 1)
  }

  lemma RightAround(w: seq<Row>, fed: seq<Row>, rg: nat, height: nat, tail: nat, k: nat)
    requires rg >= 1 && tail < height && k * rg < height && Right(w, rg, height, tail, fed, k)
    ensures Around(w, fed, rg, height, k)
  {
    hide Source;
    forall e: nat | e <= 2 * rg ensures IsRow(w[e], fed, Clamp(Place(rg, k, e), height)) {
      FirstRowBelow(rg, height, tail, k, e);
      assert RightAt(w, rg, height, tail, fed, k, e);
    }
    assert k > 0 ==> k * rg >= rg by { if k > 0 { Monotone(1, k, rg); } }
    assert k == 0 ==> k * rg == 0;
  }

  /** The rows of a list around row group g. */
  function WindowAt(s: seq<Row>, x: seq<nat>, rg: nat, at: nat): (w: seq<Row>)
    ensures |w| == 3 * rg
  {
    seq(3 * rg, e => X(s, x, rg, at - rg + e))
  }

  /** A row group, not the last, of an iMCU row, not the last. */
  lemma InnerGroup(s: seq<Row>, x: seq<nat>, rg: nat, m: nat, h: nat, fed: seq<Row>, c: nat, g: nat, height: nat, tail: nat)
    requires rg >= 1 && m >= 2 && h == m * rg && g + 1 < m && tail < height && c * h + h <= tail && c * h + h <= |fed|
    requires Shows(s, x, rg, fed, c * h, 0 - rg, h)
    ensures Right(WindowAt(s, x, rg, g * rg), rg, height, tail, fed, c * m + g)
  {
    var w, k, v := WindowAt(s, x, rg, g * rg), c * m + g, c * h;
    RowOf(rg, m, h, c, g);
    assert g * rg + 2 * rg <= h by { assert (g + 2) * rg <= m * rg; }
    forall e: nat | e < 3 * rg ensures RightAt(w, rg, height, tail, fed, k, e) {
      assert At(s, x, rg, fed, v, g * rg - rg + e);
    }
  }

  lemma RowOf(rg: nat, m: nat, h: nat, c: nat, g: nat)
    requires h == m * rg
    ensures (c * m + g) * rg == c * h + g * rg
  {
    assert (c * m) * rg == c * (m * rg);
  }

  /** A row group of the last iMCU row. */
  lemma LastGroup(s: seq<Row>, x: seq<nat>, rg: nat, m: nat, h: nat, fed: seq<Row>, c: nat, g: nat, height: nat, tail: nat)
    requires rg >= 1 && m >= 2 && h == m * rg && tail == c * h < height <= tail + h && g * rg < height - tail
    requires ShowsEnd(s, x, rg, fed, tail, 0 - rg, height - tail + 2 * rg, height)
    ensures Right(WindowAt(s, x, rg, g * rg), rg, height, tail, fed, c * m + g)
  {
    var w, k := WindowAt(s, x, rg, g * rg), c * m + g;
    RowOf(rg, m, h, c, g);
    forall e: nat | e < 3 * rg ensures RightAt(w, rg, height, tail, fed, k, e) {
      var i := g * rg - rg + e;
      assert X(s, x, rg, i) == fed[Clamp(tail + i, height)];
    }
  }

  /** The postponed row group k, with the next iMCU row, which starts at row v, in place. */
  lemma PostponedGroup(s: seq<Row>, x: seq<nat>, rg: nat, h: nat, fed: seq<Row>, k: nat, v: nat, height: nat, tail: nat)
    requires rg >= 1 && h >= 2 * rg && k * rg + rg == v >= h && |fed| == v + h && v <= tail < height && (v < tail ==> v + h <= tail)
    requires Shows(s, x, rg, fed, v - 2 * rg - h, h, h + 3 * rg)
    ensures Right(WindowAt(s, x, rg, h + rg), rg, height, tail, fed, k)
  {
    var w, u := WindowAt(s, x, rg, h + rg), v - 2 * rg - h;
    forall e: nat | e < 3 * rg ensures RightAt(w, rg, height, tail, fed, k, e) {
      assert At(s, x, rg, fed, u, h + e);
    }
  }

  // ---------- the state machine ----------

  /** CTX_PREPARE_FOR_IMCU, CTX_PROCESS_IMCU and CTX_POSTPONED_ROW. */
  datatype CtxState = Prepare | Process | Postponed

  /** How many row groups of the last iMCU row have real rows. */
  function LastGroups(rg: nat, left: nat): nat
    requires rg >= 1 && left >= 1
  {
    (left - 1) / rg + 1
  }

  lemma LastGroupsBounds(rg: nat, m: nat, left: nat, g: nat)
    requires rg >= 1 && 1 <= left <= m * rg
    ensures g < LastGroups(rg, left) <==> g * rg < left
    ensures 1 <= LastGroups(rg, left) <= m
  {
    var n, r := (left - 1) / rg, (left - 1) % rg;
    assert left - 1 == n * rg + r;
    Monotone(g, n, rg);
    Monotone(n + 1, g, rg);
    Monotone(m, n, rg);
    assert (n + 1) * rg == n * rg + rg;
  }

  lemma Monotone(a: nat, b: nat, c: nat)
    ensures a <= b ==> a * c <= b * c
  {
    if a <= b { assert (b - a) * c >= 0; }
  }

  method WrapAround(list: array<nat>, rg: nat, h: nat)
    requires h >= 2 * rg && list.Length == h + 4 * rg
    modifies list
    ensures Rounded(old(list[..]), list[..], rg, h)
  {
    ghost var a := list[..];
    for i := 0 to rg
      invariant forall k: nat :: rg <= k < h + 3 * rg ==> list[k] == a[k]
      invariant forall k: nat {:trigger list[k]} :: k < i ==> list[k] == a[k + (h + 2 * rg)]
      invariant forall k: nat {:trigger list[k]} :: h + 3 * rg <= k < h + 3 * rg + i ==> list[k] == a[k - (h + 2 * rg)]
      invariant forall k: nat :: h + 3 * rg + i <= k < h + 4 * rg ==> list[k] == a[k]
    {
      list[i] := list[h + 2 * rg + i];
      list[h + 3 * rg + i] := list[rg + i];
    }
  }

  /** The workspace pointers as they are. */
  method PlainList(rg: nat, h: nat) returns (x: array<nat>)
    ensures fresh(x) && x.Length == h + 4 * rg && forall k: nat :: rg <= k < h + 3 * rg ==> x[k] == k - rg
  {
    x := new nat[h + 4 * rg](_ => 0);
    for i := 0 to h + 2 * rg
      invariant forall k: nat :: rg <= k < rg + i ==> x[k] == k - rg
    {
      x[rg + i] := i;
    }
  }

  /** make_funny_pointers: the second list has the last four row groups in swapped order. */
  method MakeFunnyPointers(rg: nat, h: nat) returns (x0: array<nat>, x1: array<nat>)
    requires rg >= 1 && h >= 2 * rg
    ensures fresh(x0) && fresh(x1) && x0 != x1 && x0.Length == x1.Length == h + 4 * rg
    ensures Core(x0[..], x1[..], rg, h) && Top(x0[..], rg)
  {
    hide Core;
    x0 := PlainList(rg, h);
    for i := 0 to rg
      invariant forall k: nat :: rg <= k < h + 3 * rg ==> x0[k] == k - rg
      invariant forall k: nat :: k < i ==> x0[k] == x0[rg]
    {
      x0[i] := x0[rg];
    }
    ghost var a := x0[..];
    x1 := PlainList(rg, h);
    for i := 0 to 2 * rg
      invariant x0[..] == a
      invariant forall k: nat :: rg <= k < h - rg ==> x1[k] == k - rg
      invariant forall k: nat :: h - rg <= k < h - rg + i ==> x1[k] == k + rg
      invariant forall k: nat :: h + rg <= k < h + rg + i ==> x1[k] == k - 3 * rg
    {
      x1[h - rg + i] := h + i;
      x1[h + rg + i] := h - 2 * rg + i;
    }
    SwappedLists(a, x1[..], rg, h);
  }

  lemma SwappedLists(a: seq<nat>, b: seq<nat>, rg: nat, h: nat)
    requires rg >= 1 && h >= 2 * rg && |a| == |b| == h + 4 * rg
    requires forall k: nat :: rg <= k < h + 3 * rg ==> a[k] == k - rg
    requires forall k: nat :: rg <= k < h + 3 * rg ==> b[k] == if k < h - rg then k - rg else if k < h + rg then k + rg else k - 3 * rg
    ensures Core(a, b, rg, h)
  {
  }

  /** Two row groups more of pointers to the last of the first rows. */
  method RepeatLast(list: array<nat>, rg: nat, left: nat)
    requires 1 <= left && left + 3 * rg <= list.Length
    modifies list
    ensures Bottom(old(list[..]), list[..], rg, left)
  {
    for i := 0 to 2 * rg
      invariant forall k: nat :: k < rg + left ==> list[k] == old(list[k])
      invariant forall k: nat :: rg + left <= k < rg + left + i ==> list[k] == old(list[rg + left - 1])
    {
      list[rg + left + i] := list[rg + left - 1];
    }
  }

  /** my_main_controller, with the workspace and the two pointer lists. */
  class MainController {
    const rg: nat
    const m: nat
    const h: nat
    const height: nat
    const total: nat
    const buffer: array<Row>
    const x0: array<nat>
    const x1: array<nat>
    var whichPtr: bool
    var bufferFull: bool
    var state: CtxState
    var rowgroupCtr: nat
    var rowgroupsAvail: nat
    var imcuRowCtr: nat
    /** All rows that have come in, the dummy rows at the end included; and what the postprocessor has seen. */
    ghost var fed: seq<Row>
    ghost var seen: seq<seq<Row>>

    function Tail(): nat
      requires total >= 1
    {
      (total - 1) * h
    }

    /** iMCU rows of m row groups of rg rows, as many as the height needs. */
    ghost predicate Dims() {
      && rg >= 1 && m >= 2 && h == m * rg && total >= 1 && Tail() < height <= Tail() + h
      && buffer.Length == h + 2 * rg && x0.Length == x1.Length == h + 4 * rg && x0 != x1
    }

    function List(w: bool): array<nat> { if w then x1 else x0 }

    ghost predicate Lists()
      reads x0, x1
      requires Dims()
    {
      Core(x0[..], x1[..], rg, h)
    }

    ghost predicate Round()
      reads x0, x1
      requires Dims()
    {
      Wrapped(x0[..], rg, h) && Wrapped(x1[..], rg, h)
    }

    /** Rows lo to hi of the list in use show the rows around row v. */
    ghost predicate InView(v: int, lo: int, hi: int)
      reads this`fed, this`whichPtr, buffer, x0, x1
      requires Dims()
    {
      Shows(buffer[..], List(whichPtr)[..], rg, fed, v, lo, hi)
    }

    ghost predicate EndInView()
      reads this`fed, this`whichPtr, buffer, x0, x1
      requires Dims()
    {
      ShowsEnd(buffer[..], List(whichPtr)[..], rg, fed, Tail(), 0 - rg, height - Tail() + 2 * rg, height)
    }

    /** The row groups of the image. */
    function Groups(): nat
      requires Dims()
    {
      (total - 1) * m + LastGroups(rg, height - Tail())
    }

    ghost predicate AllRight()
      reads this`fed, this`seen
      requires Dims()
    {
      forall k: nat :: k < |seen| ==> Right(seen[k], rg, height, Tail(), fed, k)
    }

    /** Before the first row groups of an iMCU row. */
    ghost predicate Preparing()
      reads this, buffer, x0, x1
      requires Dims()
    {
      && Lists() && (imcuRowCtr >= 2 ==> Round())
      && if bufferFull then imcuRowCtr >= 1 && InView((imcuRowCtr - 1) * h, 0 - rg, h) && |seen| == (imcuRowCtr - 1) * m
         else imcuRowCtr == 0 && !whichPtr && Top(x0[..], rg) && seen == []
    }

    /** In the middle of an iMCU row. */
    ghost predicate Processing()
      reads this, buffer, x0, x1
      requires Dims()
    {
      && bufferFull && imcuRowCtr >= 1 && rowgroupCtr < rowgroupsAvail && |seen| == (imcuRowCtr - 1) * m + rowgroupCtr
      && if imcuRowCtr < total then rowgroupsAvail == m - 1 && Lists() && (imcuRowCtr >= 2 ==> Round()) && InView((imcuRowCtr - 1) * h, 0 - rg, h)
         else rowgroupsAvail == LastGroups(rg, height - Tail()) && EndInView()
    }

    /** The last row group of an iMCU row waits for the next iMCU row, or to be passed on. */
    ghost predicate Waiting()
      reads this, buffer, x0, x1
      requires Dims()
    {
      && rowgroupCtr == m + 1 && rowgroupsAvail == m + 2 && Lists() && Round()
      && if bufferFull then
           && imcuRowCtr >= 2 && |seen| == (imcuRowCtr - 1) * m - 1
           && InView((imcuRowCtr - 1) * h, 0, h) && InView((imcuRowCtr - 1) * h - 2 * rg - h, h, h + 2 * rg)
         else
           1 <= imcuRowCtr < total && |seen| == imcuRowCtr * m - 1 && InView(imcuRowCtr * h - 2 * rg - h, h, h + 2 * rg)
    }

    ghost predicate Valid()
      reads this, buffer, x0, x1
    {
      && Dims() && AllRight() && |fed| == imcuRowCtr * h && imcuRowCtr <= total && |seen| <= Groups()
      && (|seen| < Groups() ==>
            match state
            case Prepare => Preparing()
            case Process => Processing()
            case Postponed => Waiting())
    }

    /** The row groups from rowgroupCtr on that may be passed would be seen as they should. */
    ghost predicate Feeds(base: int)
      reads this, buffer, x0, x1
      requires Dims()
    {
      forall g: nat :: rowgroupCtr <= g < rowgroupsAvail ==>
        base + g >= 0 && Right(WindowAt(buffer[..], List(whichPtr)[..], rg, g * rg), rg, height, Tail(), fed, base + g)
    }

    /** start_pass_main.  The controller does not support M < 2. */
    constructor (rg: nat, m: nat, height: nat, total: nat)
      requires rg >= 1 && m >= 2 && total >= 1 && (total - 1) * (m * rg) < height <= total * (m * rg)
      ensures Valid() && fed == [] && seen == [] && !bufferFull && fresh(buffer) && fresh(x0) && fresh(x1)
      ensures this.rg == rg && this.m == m && this.h == m * rg && this.height == height && this.total == total
    {
      hide Core, Top, LastGroups;
      Monotone(2, m, rg);
      var h := m * rg;
      this.rg, this.m, this.h, this.height, this.total := rg, m, h, height, total;
      buffer := new Row[h + 2 * rg](_ => []);
      var p, q := MakeFunnyPointers(rg, h);
      x0, x1 := p, q;
      whichPtr, bufferFull, state, rowgroupCtr, rowgroupsAvail, imcuRowCtr := false, false, Prepare, 0, 0, 0;
      fed, seen := [], [];
    }

    /** post_process_data takes some row groups. */
    method PostProcess(take: nat, ghost base: int)
      requires Dims() && AllRight() && Feeds(base) && base + rowgroupCtr == |seen| && rowgroupCtr <= rowgroupsAvail
      modifies this`rowgroupCtr, this`seen
      ensures AllRight() && base + rowgroupCtr == |seen| && old(rowgroupCtr) <= rowgroupCtr <= rowgroupsAvail && old(seen) <= seen
      ensures rowgroupCtr == if take <= rowgroupsAvail - old(rowgroupCtr) then old(rowgroupCtr) + take else rowgroupsAvail
    {
      hide Right, Dims;
      var n := take;
      while n > 0 && rowgroupCtr < rowgroupsAvail
        invariant AllRight() && Feeds(base) && base + rowgroupCtr == |seen| && old(rowgroupCtr) <= rowgroupCtr <= rowgroupsAvail && old(seen) <= seen
        invariant rowgroupCtr + n == old(rowgroupCtr) + take
      {
        seen := seen + [WindowAt(buffer[..], List(whichPtr)[..], rg, rowgroupCtr * rg)];
        rowgroupCtr := rowgroupCtr + 1;
        n := n - 1;
      }
    }

    /** decompress_data: an iMCU row goes where the pointers in use say. */
    method DecompressData(rows: seq<Row>)
      requires Dims() && Lists() && |rows| == h
      modifies buffer
      ensures Filled(old(buffer[..]), buffer[..], List(whichPtr)[..], rg, h, rows)
    {
      ghost var s, x := buffer[..], List(whichPtr)[..];
      CoreCovers(x0[..], x1[..], rg, h);
      hide Core;
      var list := List(whichPtr);
      for i := 0 to h
        invariant forall k: nat :: rg <= k < rg + i ==> buffer[list[k]] == rows[k - rg]
        invariant forall k: nat :: rg + i <= k < h + 3 * rg ==> buffer[list[k]] == s[list[k]]
      {
        buffer[list[rg + i]] := rows[i];
      }
      ghost var t := buffer[..];
      assert forall i: int :: 0 <= i < h + 2 * rg ==> X(t, x, rg, i) == buffer[list[rg + i]] && X(s, x, rg, i) == s[list[rg + i]];
    }

    lemma CoreCovers(x: seq<nat>, y: seq<nat>, rg: nat, h: nat)
      requires Core(x, y, rg, h)
      ensures Covers(x, rg, h) && Covers(y, rg, h)
    {
    }

    /** set_wraparound_pointers */
    method SetWraparoundPointers()
      requires Dims()
      modifies x0, x1
      ensures Rounded(old(x0[..]), x0[..], rg, h) && Rounded(old(x1[..]), x1[..], rg, h)
    {
      Sizes();
      WrapAround(x0, rg, h);
      WrapAround(x1, rg, h);
    }

    /** set_bottom_pointers, for the list in use. */
    method SetBottomPointers()
      requires Dims() && InView(Tail(), 0 - rg, h) && height <= |fed|
      modifies this`rowgroupsAvail, x0, x1
      ensures EndInView() && rowgroupsAvail == LastGroups(rg, height - Tail())
    {
      hide Shows, ShowsEnd, Dims, RowsLeft, Tail, Bottom;
      Sizes();
      var rowsLeft := RowsLeft(height, h);
      rowgroupsAvail := LastGroups(rg, rowsLeft);
      ghost var x := List(whichPtr)[..];
      RepeatLast(List(whichPtr), rg, rowsLeft);
      BottomShows(buffer[..], x, List(whichPtr)[..], rg, h, fed, Tail(), height);
    }

    /** An iMCU row is there. */
    method Receive(rows: seq<Row>)
      requires Valid() && |seen| < Groups() && !bufferFull && |rows| == h
      modifies this`bufferFull, this`imcuRowCtr, this`fed, buffer
      ensures Valid() && bufferFull && fed == old(fed) + rows
    {
      hide Core, Shows, Right, Wrapped, Top, Filled, Tail, Dims;
      Sizes();
      ghost var s, x, old_ := buffer[..], List(whichPtr)[..], fed;
      LiveLists();
      CoreCovers(x0[..], x1[..], rg, h);
      DecompressData(rows);
      if state == Prepare {
        assert [] + rows == rows;
        FilledFirst(s, buffer[..], x, rg, h, rows);
      } else {
        FilledNext(s, buffer[..], x, rg, h, old_, rows);
      }
      bufferFull := true;
      imcuRowCtr := imcuRowCtr + 1;
      fed := fed + rows;
      forall k: nat | k < |seen| ensures Right(seen[k], rg, height, Tail(), fed, k) {
        StillRight(seen[k], rg, height, Tail(), old_, rows, k);
      }
    }

    lemma LiveLists()
      requires Valid() && |seen| < Groups() && !bufferFull
      ensures Lists() && state != Process && imcuRowCtr < total
      ensures state == Prepare ==> imcuRowCtr == 0 && !whichPtr && Top(x0[..], rg) && seen == [] && fed == []
      ensures state == Postponed ==> imcuRowCtr >= 1 && |fed| >= h && InView(|fed| - 2 * rg - h, h, h + 2 * rg)
    {
      if state == Postponed { Monotone(1, imcuRowCtr, h); }
    }

    lemma GroupsAbove(c: nat)
      requires Dims() && c < total
      ensures c * m < Groups() && (c + 1 < total ==> c * m + m < Groups()) && (c + 1 == total ==> Groups() == c * m + LastGroups(rg, height - Tail()))
      ensures (c + 1) * m == c * m + m && (c + 1) * h == c * h + h
      ensures c * h <= Tail() && (c + 1 < total ==> c * h + h <= Tail()) && (c + 1 == total ==> Tail() == c * h)
    {
      Monotone(c, total - 1, m);
      Monotone(c + 1, total - 1, m);
      Monotone(c, total - 1, h);
      Monotone(c + 1, total - 1, h);
      assert (c + 1) * m == c * m + m && (c + 1) * h == c * h + h;
    }

    lemma PostponedFeeds(c: nat)
      requires Dims() && Waiting() && bufferFull && c + 1 == imcuRowCtr <= total && |fed| == imcuRowCtr * h
      ensures Feeds(c * m - 1 - (m + 1)) && InView(c * h, 0 - rg, h) && c >= 1
    {
      hide Right, Shows, Wrapped, Covers, Tail, LastGroups;
      CoreCovers(x0[..], x1[..], rg, h);
      hide Core;
      Monotone(1, c, h);
      Monotone(2, m, rg);
      GroupsAbove(c);
      assert (c + 1) * h == c * h + h;
      AroundPostponed(buffer[..], List(whichPtr)[..], rg, h, fed, c * h);
      Monotone(1, c, m);
      RowOf(rg, m, h, c - 1, m - 1);
      assert (m - 1) * rg + rg == m * rg && (c - 1) * m + (m - 1) == c * m - 1;
      PostponedGroup(buffer[..], List(whichPtr)[..], rg, h, fed, c * m - 1, c * h, height, Tail());
      assert (m + 1) * rg == h + rg;
    }

    lemma ProcessFeeds(c: nat)
      requires Dims() && Processing() && c + 1 == imcuRowCtr <= total && |fed| == imcuRowCtr * h
      ensures Feeds(c * m)
    {
      hide Right, Shows, ShowsEnd, Tail, LastGroups, Core, Wrapped;
      GroupsAbove(c);
      assert (c + 1) * h == c * h + h;
      forall g: nat | rowgroupCtr <= g < rowgroupsAvail
        ensures Right(WindowAt(buffer[..], List(whichPtr)[..], rg, g * rg), rg, height, Tail(), fed, c * m + g)
      {
        if imcuRowCtr < total {
          InnerGroup(buffer[..], List(whichPtr)[..], rg, m, h, fed, c, g, height, Tail());
        } else {
          LastGroupsBounds(rg, m, height - Tail(), g);
          LastGroup(buffer[..], List(whichPtr)[..], rg, m, h, fed, c, g, height, Tail());
        }
      }
    }

    /** The last two row groups are in view in the middle of an iMCU row that is not the last. */
    lemma ViewAt(c: nat)
      requires Dims() && c + 1 < total && InView(c * h, 0 - rg, h)
      ensures Shows(buffer[..], List(whichPtr)[..], rg, fed, c * h, h - 2 * rg, h)
    {
      Monotone(2, m, rg);
    }

    lemma FedAll()
      requires Dims() && |fed| == imcuRowCtr * h
      ensures imcuRowCtr == total ==> height <= |fed| && (imcuRowCtr - 1) * h == Tail()
    {
    }

    /** Pass on the postponed row group. */
    method PassPostponed(take: nat)
      requires Valid() && |seen| < Groups() && bufferFull && state == Postponed
      modifies this`rowgroupCtr, this`seen, this`state
      ensures Valid() && |seen| < Groups() && old(seen) <= seen
      ensures state == Prepare || (state == Postponed && take == 0)
      ensures take >= 1 ==> |seen| > |old(seen)|
    {
      hide Core, Shows, Right, Wrapped, Covers, Tail, Dims, LastGroups;
      Sizes();
      ghost var c := imcuRowCtr - 1;
      PostponedFeeds(c);
      PostProcess(take, c * m - 1 - (m + 1));
      GroupsAbove(c);
      if rowgroupCtr < rowgroupsAvail { return; }
      state := Prepare;
    }

    /** The next row groups are those of an iMCU row. */
    method PrepareForImcu()
      requires Valid() && |seen| < Groups() && bufferFull && state == Prepare
      modifies this`rowgroupCtr, this`rowgroupsAvail, this`state, x0, x1
      ensures Valid() && state == Process
    {
      hide Core, Shows, ShowsEnd, Right, Wrapped, Tail, Dims;
      Sizes();
      rowgroupCtr := 0;
      rowgroupsAvail := m - 1;
      FedAll();
      if imcuRowCtr == total { SetBottomPointers(); }
      state := Process;
    }

    /** Pass on row groups of an iMCU row; when they are through, switch lists. */
    method ProcessImcu(take: nat)
      requires Valid() && |seen| < Groups() && state == Process
      modifies this`rowgroupCtr, this`rowgroupsAvail, this`seen, this`state, this`whichPtr, this`bufferFull, x0, x1
      ensures Valid() && old(seen) <= seen
      ensures |seen| - |old(seen)| == if take <= old(rowgroupsAvail - rowgroupCtr) then take else old(rowgroupsAvail - rowgroupCtr)
    {
      hide Core, Shows, ShowsEnd, Right, Wrapped, Tail, Dims, LastGroups;
      Sizes();
      ghost var c := imcuRowCtr - 1;
      ProcessFeeds(c);
      GroupsAbove(c);
      PostProcess(take, c * m);
      if rowgroupCtr == rowgroupsAvail { FinishImcu(c); }
    }

    /** What a list in the middle of the image is like. */
    ghost predicate Middle(c: nat)
      reads this, buffer, x0, x1
      requires Dims()
    {
      Lists() && (c >= 1 ==> Round()) && InView(c * h, 0 - rg, h)
    }

    /** After the first iMCU row the wraparound pointers are set; then the other list comes into use. */
    method SwitchLists(ghost c: nat)
      requires Dims() && c + 1 == imcuRowCtr && (imcuRowCtr < total ==> Middle(c))
      modifies this`whichPtr, x0, x1
      ensures imcuRowCtr < total ==> Lists() && Round() && InView(c * h - 2 * rg, h, h + 2 * rg)
    {
      hide Core, Shows, Wrapped, Tail, Dims, Rounded;
      Sizes();
      ghost var a, b, x, y := x0[..], x1[..], List(whichPtr)[..], List(!whichPtr)[..];
      if imcuRowCtr < total {
        ViewAt(c);
        CoreSwap(a, b, rg, h);
        Switch(buffer[..], x, y, rg, h, fed, c * h);
      }
      if imcuRowCtr == 1 {
        SetWraparoundPointers();
        if imcuRowCtr < total {
          RoundedLists(a, b, x0[..], x1[..], rg, h);
          RoundedShows(buffer[..], y, List(!whichPtr)[..], rg, h, fed, c * h - 2 * rg);
        }
      }
      whichPtr := !whichPtr;
    }

    /** The list in use becomes the other one; its last row group waits. */
    method FinishImcu(ghost c: nat)
      requires Dims() && AllRight() && bufferFull && c + 1 == imcuRowCtr <= total && |fed| == imcuRowCtr * h
      requires if imcuRowCtr == total then |seen| == Groups() else |seen| == c * m + (m - 1) && Middle(c)
      modifies this`rowgroupCtr, this`rowgroupsAvail, this`state, this`whichPtr, this`bufferFull, x0, x1
      ensures Valid()
    {
      hide Shows, AllRight, Tail, Dims, LastGroups, Lists, Round;
      GroupsAbove(c);
      SwitchLists(c);
      bufferFull := false;
      rowgroupCtr := m + 1;
      rowgroupsAvail := m + 2;
      state := Postponed;
    }

    /** process_data_context_main.  The coefficient controller delivers an iMCU row or suspends; the postprocessor
        takes any number of row groups in each call, and may then have filled the output.  Whatever they do, the
        row groups are passed on in order, each once, with the rows around them; the row groups of the last iMCU
        row need no further iMCU row. */
    method ProcessDataContextMain(arrival: Option<seq<Row>>, taken0: nat, taken1: nat, outFull: bool)
      requires Valid() && |seen| < Groups() && (arrival.Some? ==> |arrival.value| == h)
      modifies this, buffer, x0, x1
      ensures Valid() && old(seen) <= seen && old(fed) <= fed
      ensures fed == if !old(bufferFull) && arrival.Some? then old(fed) + arrival.value else old(fed)
      ensures !old(bufferFull) && arrival.None? ==> seen == old(seen)
      ensures (old(bufferFull) || arrival.Some?) && taken0 >= 1 && taken1 >= 1 ==> |seen| > |old(seen)|
      ensures forall k: nat :: k < |seen| ==> Around(seen[k], fed, rg, height, k)
    {
      hide Valid, AllRight, Dims, Groups, Tail, Around;
      Busy();
      if !bufferFull {
        match arrival {
          case None => { AllAround(); return; }
          case Some(rows) => Receive(rows);
        }
      }
      Busy();
      if state == Postponed {
        PassPostponed(taken0);
        if state == Postponed || outFull { AllAround(); return; }
      }
      if state == Prepare { PrepareForImcu(); }
      Busy();
      ProcessImcu(taken1);
      AllAround();
    }

    lemma AllAround()
      requires Valid()
      ensures forall k: nat :: k < |seen| ==> Around(seen[k], fed, rg, height, k)
    {
      hide Right, Around, Groups, LastGroups, Tail;
      GroupsCover();
      Sizes();
      forall k: nat | k < |seen| ensures Around(seen[k], fed, rg, height, k) {
        Monotone(k, Groups() - 1, rg);
        RightAround(seen[k], fed, rg, height, Tail(), k);
      }
    }

    lemma Busy()
      requires Valid() && |seen| < Groups()
      ensures state == Process ==> rowgroupCtr < rowgroupsAvail && bufferFull
    {
    }

    /** The row groups passed on are those that the image has. */
    lemma GroupsCover()
      requires Dims()
      ensures Groups() >= 1 && (Groups() - 1) * rg < height <= Groups() * rg
    {
      hide LastGroups;
      var left, n := height - Tail(), LastGroups(rg, height - Tail());
      LastGroupsBounds(rg, m, left, n);
      LastGroupsBounds(rg, m, left, n - 1);
      RowOf(rg, m, h, total - 1, n);
      RowOf(rg, m, h, total - 1, n - 1);
    }

    lemma Sizes()
      requires Dims()
      ensures rg >= 1 && m >= 2 && h >= 2 * rg && buffer.Length == h + 2 * rg && x0.Length == x1.Length == h + 4 * rg && x0 != x1
      ensures total >= 1 && Tail() < height <= Tail() + h && height - Tail() == RowsLeft(height, h)
    {
      Monotone(2, m, rg);
      var left := height - Tail();
      assert height == (total - 1) * h + left;
      if left == h {
        assert height == total * h;
        DivMod(total, h, 0, height);
      } else {
        DivMod(total - 1, h, left, height);
      }
    }
  }

  /** The controller at work on the five rows of DummyRowSeen: the first iMCU row has the rows a, the second one
      real row and three dummy rows b.  For the second row group, the last row seen below is not the last row of
      the image, b[0], but a dummy row. */
  method DummyRowRun(a: seq<Row>, b: seq<Row>) returns (c: MainController)
    requires |a| == |b| == 4
    ensures fresh(c) && c.rg == 2 && c.m == 2 && c.height == 5 && c.total == 2 && c.Valid()
    ensures c.fed == a + b && |c.seen| >= 2 && |c.seen[1]| == 6
    ensures c.seen[1][..5] == [a[0], a[1], a[2], a[3], b[0]] && c.seen[1][5] == b[1]
  {
    hide MainController.Valid, Right;
    c := new MainController(2, 2, 5, 2);
    FiveRows(c);
    c.ProcessDataContextMain(Some(a), 1, 1, false);
    FiveRows(c);
    assert [] + a == a;
    if |c.seen| >= 2 { SecondGroup(c.seen[1], a, b, c.fed); }
    c.ProcessDataContextMain(Some(b), 1, 1, false);
    FiveRows(c);
    SecondGroup(c.seen[1], a, b, c.fed);
  }

  lemma FiveRows(c: MainController)
    requires c.Valid() && c.rg == 2 && c.m == 2 && c.h == 4 && c.height == 5 && c.total == 2
    ensures c.Groups() == 3 && forall k: nat :: k < |c.seen| ==> Right(c.seen[k], 2, 5, 4, c.fed, k)
  {
    hide Right;
    assert c.Tail() == 4;
  }

  /** What may have been seen for the second row group. */
  lemma SecondGroup(w: seq<Row>, a: seq<Row>, b: seq<Row>, fed: seq<Row>)
    requires |a| == |b| == 4 && Right(w, 2, 5, 4, fed, 1) && (fed == a || fed == a + b)
    ensures fed == a + b && |w| == 6 && w[..5] == [a[0], a[1], a[2], a[3], b[0]] && w[5] == b[1]
  {
    DummyRowSeen();
    assert RightAt(w, 2, 5, 4, fed, 1, 0) && RightAt(w, 2, 5, 4, fed, 1, 1) && RightAt(w, 2, 5, 4, fed, 1, 2);
    assert RightAt(w, 2, 5, 4, fed, 1, 3) && RightAt(w, 2, 5, 4, fed, 1, 4) && RightAt(w, 2, 5, 4, fed, 1, 5);
  }

  lemma CoreSwap(x: seq<nat>, y: seq<nat>, rg: nat, h: nat)
    requires Core(x, y, rg, h)
    ensures Core(y, x, rg, h)
  {
  }

  lemma RoundedShows(s: seq<Row>, x: seq<nat>, y: seq<nat>, rg: nat, h: nat, fed: seq<Row>, v: int)
    requires h >= 2 * rg && Rounded(x, y, rg, h) && Shows(s, x, rg, fed, v, h, h + 2 * rg)
    ensures Shows(s, y, rg, fed, v, h, h + 2 * rg)
  {
    forall i: int | h <= i < h + 2 * rg ensures At(s, y, rg, fed, v, i) { assert At(s, x, rg, fed, v, i); }
  }

  /** More rows do not change what is right. */
  lemma StillRight(w: seq<Row>, rg: nat, height: nat, tail: nat, fed: seq<Row>, rows: seq<Row>, k: nat)
    requires height >= 1 && Right(w, rg, height, tail, fed, k)
    ensures Right(w, rg, height, tail, fed + rows, k)
  {
    forall e: nat | e < 3 * rg ensures RightAt(w, rg, height, tail, fed + rows, k, e) {
      assert RightAt(w, rg, height, tail, fed, k, e);
    }
  }

  /** The real rows of the last iMCU row. */
  function RowsLeft(height: nat, h: nat): nat
    requires h >= 1
  {
    if height % h == 0 then h else height % h
  }

  lemma DivMod(q: nat, h: nat, r: nat, n: nat)
    requires r < h && n == q * h + r
    ensures n % h == r
  {
    var b, a := n / h, n % h;
    assert n == b * h + a;
    SameRest(b, a, q, r, h);
  }

  lemma SameRest(b: nat, a: nat, q: nat, r: nat, h: nat)
    requires b * h + a == q * h + r && a < h && r < h
    ensures a == r
  {
    Monotone(q + 1, b, h);
    Monotone(b + 1, q, h);
    assert (q + 1) * h == q * h + h && (b + 1) * h == b * h + h;
  }

  /** y is x with the wraparound pointers filled in. */
  ghost predicate Rounded(x: seq<nat>, y: seq<nat>, rg: nat, h: nat) {
    && |x| == |y| == h + 4 * rg
    && (forall k: nat :: rg <= k < h + 3 * rg ==> y[k] == x[k])
    && (forall k: nat {:trigger y[k]} :: k < rg ==> y[k] == x[k + (h + 2 * rg)])
    && (forall k: nat {:trigger y[k]} :: h + 3 * rg <= k < h + 4 * rg ==> y[k] == x[k - (h + 2 * rg)])
  }

  lemma RoundedLists(a: seq<nat>, b: seq<nat>, x: seq<nat>, y: seq<nat>, rg: nat, h: nat)
    requires Core(a, b, rg, h) && Rounded(a, x, rg, h) && Rounded(b, y, rg, h)
    ensures Core(x, y, rg, h) && Wrapped(x, rg, h) && Wrapped(y, rg, h)
    ensures x[rg..h + 3 * rg] == a[rg..h + 3 * rg] && y[rg..h + 3 * rg] == b[rg..h + 3 * rg]
  {
  }
}
