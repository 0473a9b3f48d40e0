// jutils.c: the order in which a block's coefficients are coded.
module ZigzagOrder {
  import opened AcBlocks

  const ROWS: seq<seq<nat>> := [
    [0, 1, 8, 16, 9, 2, 3, 10],
    [17, 24, 32, 25, 18, 11, 4, 5],
    [12, 19, 26, 33, 40, 48, 41, 34],
    [27, 20, 13, 6, 7, 14, 21, 28],
    [35, 42, 49, 56, 57, 50, 43, 36],
    [29, 22, 15, 23, 30, 37, 44, 51],
    [58, 59, 52, 45, 38, 31, 39, 46],
    [53, 60, 61, 54, 47, 55, 62, 63]]

  /** jpeg_natural_order: the zigzag positions, and sixteen extra entries. */
  function JpegNaturalOrder(): (order: seq<nat>)
    ensures |order| == 80
  {
    seq(80, k requires 0 <= k < 80 => if k >= 64 then 63 else ROWS[k / 8][k % 8])
  }

  /** All that the coders rely on: a permutation of the first 64 positions that fixes 0, and entries
      that keep the stray positions of corrupt data on the last coefficient. */
  ghost predicate NaturalOrder(order: seq<nat>) {
    && |order| == 80 && order[0] == 0
    && (forall k :: 0 <= k < 80 ==> order[k] < 64)
    && (forall k :: 64 <= k < 80 ==> order[k] == order[63])
    && (forall i, j :: 0 <= i < j < 64 ==> order[i] != order[j])
  }

  const PLACES: seq<seq<nat>> := [
    [0, 1, 5, 6, 14, 15, 27, 28],
    [2, 4, 7, 13, 16, 26, 29, 42],
    [3, 8, 12, 17, 25, 30, 41, 43],
    [9, 11, 18, 24, 31, 40, 44, 53],
    [10, 19, 23, 32, 39, 45, 52, 54],
    [20, 22, 33, 38, 46, 51, 55, 60],
    [21, 34, 37, 47, 50, 56, 59, 61],
    [35, 36, 48, 49, 57, 58, 62, 63]]

  lemma PlaceInUpperRow(i: nat, j: nat)
    requires i < 4 && j < 8
    ensures ROWS[i][j] < 64 && PLACES[ROWS[i][j] / 8][ROWS[i][j] % 8] == 8 * i + j
  {
    var row := ROWS[i];
    var v := row[j];
    assert v < 64;
    var there := PLACES[v / 8];
    assert there[v % 8] == 8 * i + j;
  }

  lemma PlaceInLowerRow(i: nat, j: nat)
    requires 4 <= i < 8 && j < 8
    ensures ROWS[i][j] < 64 && PLACES[ROWS[i][j] / 8][ROWS[i][j] % 8] == 8 * i + j
  {
    var row := ROWS[i];
    var v := row[j];
    assert v < 64;
    var there := PLACES[v / 8];
    assert there[v % 8] == 8 * i + j;
  }

  lemma PlaceOf(k: nat)
    requires k < 64
    ensures ROWS[k / 8][k % 8] < 64 && PLACES[ROWS[k / 8][k % 8] / 8][ROWS[k / 8][k % 8] % 8] == k
  {
    if k / 8 < 4 { PlaceInUpperRow(k / 8, k % 8); } else { PlaceInLowerRow(k / 8, k % 8); }
  }

  /** The place after v on the walk along the antidiagonals (figure 5 of T.81): up and to the right on those with an
      even sum of row and column, down and to the left on the others, and along the edge in between. */
  function Onward(v: nat): nat
    requires v < 63
  {
    var r, c := v / 8, v % 8;
    if (r + c) % 2 == 0 then if c == 7 then v + 8 else if r == 0 then v + 1 else v - 7
    else if r == 7 then v + 1 else if c == 0 then v + 8 else v + 7
  }

  lemma WalkInRow(i: nat, j: nat)
    requires i < 8 && j < 7
    ensures ROWS[i][j] < 63 && ROWS[i][j + 1] == Onward(ROWS[i][j])
  {
    var row := ROWS[i];
    var v, w := row[j], row[j + 1];
    assert v < 63;
    assert w == Onward(v);
  }

  lemma WalkOn(i: nat)
    requires i < 7
    ensures ROWS[i][7] < 63 && ROWS[i + 1][0] == Onward(ROWS[i][7])
  {
    var row, below := ROWS[i], ROWS[i + 1];
    assert row[7] < 63;
    assert below[0] == Onward(row[7]);
  }

  /** The table is that walk. */
  lemma ZigzagWalk(k: nat)
    requires k < 63
    ensures var o := JpegNaturalOrder(); o[0] == 0 && o[k] < 63 && o[k + 1] == Onward(o[k])
  {
    hide Onward;
    var i, j := k / 8, k % 8;
    if j < 7 {
      WalkInRow(i, j);
      assert (k + 1) / 8 == i && (k + 1) % 8 == j + 1;
    } else {
      WalkOn(i);
      assert (k + 1) / 8 == i + 1 && (k + 1) % 8 == 0;
    }
  }

  lemma StandardOrder()
    ensures NaturalOrder(JpegNaturalOrder())
  {
    var o := JpegNaturalOrder();
    forall k | 0 <= k < 64 ensures o[k] < 64 { PlaceOf(k); }
    forall i, j | 0 <= i < j < 64 ensures o[i] != o[j] {
      PlaceOf(i);
      PlaceOf(j);
    }
  }

  /** The block in zigzag order. */
  ghost function Zigzag(order: seq<nat>, block: seq<int>): Block
    requires NaturalOrder(order) && |block| == 64
  {
    seq(64, k requires 0 <= k < 64 => block[order[k]])
  }

  lemma ZigzagAt(order: seq<nat>, block: seq<int>, k: nat)
    requires NaturalOrder(order) && |block| == 64 && k < 64
    ensures Zigzag(order, block)[k] == block[order[k]]
  {
  }

  lemma ZigzagDc(order: seq<nat>, block: seq<int>)
    requires NaturalOrder(order) && |block| == 64
    ensures Zigzag(order, block)[0] == block[0]
  {
  }

  lemma NeverFirst(order: seq<nat>, k: nat)
    requires NaturalOrder(order) && 1 <= k < 80
    ensures order[k] != 0
  {
    assert order[k] == order[Clip(k)] && order[0] != order[Clip(k)];
  }

  /** A store through the order table, wherever it lands. */
  lemma ZigzagSet(order: seq<nat>, block: seq<int>, k: nat, v: int)
    requires NaturalOrder(order) && |block| == 64 && k < 80
    ensures Zigzag(order, block[order[k] := v]) == Zigzag(order, block)[Clip(k) := v]
  {
    var z, z' := Zigzag(order, block), Zigzag(order, block[order[k] := v]);
    assert order[k] == order[Clip(k)];
    forall i | 0 <= i < 64 ensures z'[i] == z[Clip(k) := v][i] {
      if i != Clip(k) { assert order[i] != order[k]; }
    }
  }
}
