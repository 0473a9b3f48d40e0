// Context rows for the downsampler (jcprepct.c): three row groups in a circular buffer, seen through row
// pointers for five.  One component; components do not affect one another.
module CompressContext {
  /** A colour-converted row of samples. */
  type Row = seq<int>

  /** The nearest row of an image of the given height. */
  function Clamp(v: int, height: nat): nat
    requires height >= 1
  {
    if v < 0 then 0 else if v >= height then height - 1 else v
  }

  /** What the downsampler is to see for the row group that starts at row v: a row group above, the row group
      itself and one below, with the edge rows repeated. */
  function Window(image: seq<Row>, rg: nat, v: int): (w: seq<Row>)
    requires |image| >= 1
    ensures |w| == 3 * rg
  {
    seq(3 * rg, e => image[Clamp(v - rg + e, |image|)])
  }

  /** Row group k between its neighbours; above the image its first row, below it its last. */
  predicate Neighbourhood(w: seq<Row>, image: seq<Row>, rg: nat, k: nat)
    requires image != []
  {
    && |w| == 3 * rg
    && forall e: nat :: e < 3 * rg ==>
      var p := k * rg + e - rg;
      w[e] == if p < 0 then image[0] else if p >= |image| then image[|image| - 1] else image[p]
  }

  /** The physical row for row p of a buffer of three row groups, which may be one row group outside of it. */
  function Wrap(rg: nat, p: int): int {
    if p < 0 then p + 3 * rg else if p >= 3 * rg then p - 3 * rg else p
  }

  /** Where the next row group starts. */
  function NextGroup(rg: nat, p: nat): nat {
    if p + rg >= 3 * rg then 0 else p + rg
  }

  predicate IsGroup(rg: nat, p: nat) { rg >= 1 && (p == 0 || p == rg || p == 2 * rg) }

  /** Image row start + d, or the nearest one, is where it is looked for, if row start is at g. */
  ghost predicate At(image: seq<Row>, rg: nat, s: seq<Row>, g: nat, start: int, d: int)
    requires image != [] && |s| == 3 * rg && IsGroup(rg, g) && 0 - rg <= d < 2 * rg
  {
    s[Wrap(rg, g + d)] == image[Clamp(start + d, |image|)]
  }

  /** The rows from one row group before image row `start` up to row start + stored are in place, where row
      `start` is physical row g. */
  ghost predicate InPlace(image: seq<Row>, rg: nat, s: seq<Row>, g: nat, start: int, stored: int)
    requires image != [] && |s| == 3 * rg && IsGroup(rg, g) && stored <= 2 * rg
  {
    forall d: int :: 0 - rg <= d < stored ==> At(image, rg, s, g, start, d)
  }

  /** New rows extend what is in place. */
  lemma Extend(image: seq<Row>, rg: nat, s: seq<Row>, t: seq<Row>, g: nat, start: int, stored: nat, input: seq<Row>, next: nat)
    requires image != [] && |s| == |t| == 3 * rg && IsGroup(rg, g) && stored + |input| <= 2 * rg && InPlace(image, rg, s, g, start, stored)
    requires next == NextPlace(rg, g, stored)
    requires next + |input| <= 3 * rg
    requires forall p: nat :: p < 3 * rg ==> t[p] == if next <= p < next + |input| then input[p - next] else s[p]
    requires forall i: nat :: i < |input| ==> input[i] == image[Clamp(start + stored + i, |image|)]
    ensures InPlace(image, rg, t, g, start, stored + |input|)
  {
    forall d: int | 0 - rg <= d < stored + |input|
      ensures At(image, rg, t, g, start, d)
    {
      if d < stored {
        assert At(image, rg, s, g, start, d);
      } else {
        assert Wrap(rg, g + d) == next + (d - stored);
        assert input[d - stored] == image[Clamp(start + stored + (d - stored), |image|)];
      }
    }
  }

  /** The physical place of the next row to be stored. */
  function NextPlace(rg: nat, g: nat, stored: nat): int { NextGroup(rg, g) + stored - rg }

  /** The first rows, and their copies above the image. */
  lemma Begin(image: seq<Row>, rg: nat, s: seq<Row>, t: seq<Row>, input: seq<Row>)
    requires image != [] && |s| == |t| == 3 * rg && rg >= 1 && 1 <= |input| <= 2 * rg && input <= image
    requires forall p: nat :: p < |input| ==> s[p] == input[p]
    requires forall p: nat :: p < 3 * rg ==> t[p] == if p >= 2 * rg then s[0] else s[p]
    ensures InPlace(image, rg, t, 0, 0, |input|)
  {
  }

  /** The next row group becomes the current one. */
  lemma Shift(image: seq<Row>, rg: nat, s: seq<Row>, g: nat, start: int)
    requires image != [] && |s| == 3 * rg && IsGroup(rg, g) && InPlace(image, rg, s, g, start, 2 * rg)
    ensures IsGroup(rg, NextGroup(rg, g)) && InPlace(image, rg, s, NextGroup(rg, g), start + rg, rg)
  {
    var h, v := NextGroup(rg, g), start + rg;
    forall d: int | 0 - rg <= d < rg ensures At(image, rg, s, h, v, d) {
      assert Wrap(rg, h + d) == Wrap(rg, g + (d + rg));
      assert At(image, rg, s, g, start, d + rg);
    }
  }

  /** The pointers of create_context_buffer: five row groups of them, the outer ones wrapped around. */
  method CreateContextBuffer(rg: nat) returns (ptr: array<nat>)
    requires rg >= 1
    ensures fresh(ptr) && ptr.Length == 5 * rg
    ensures forall i: nat :: i < 5 * rg ==> ptr[i] == if i < rg then 2 * rg + i else if i < 4 * rg then i - rg else i - 4 * rg
  {
    ptr := new nat[5 * rg](_ => 0);
    for i := 0 to 3 * rg
      invariant forall k: nat :: rg <= k < rg + i ==> ptr[k] == k - rg
    {
      ptr[rg + i] := i;
    }
    for i := 0 to rg
      invariant forall k: nat :: rg <= k < 4 * rg ==> ptr[k] == k - rg
      invariant forall k: nat :: k < i ==> ptr[k] == 2 * rg + k
      invariant forall k: nat :: 4 * rg <= k < 4 * rg + i ==> ptr[k] == k - 4 * rg
    {
      ptr[i] := 2 * rg + i;
      ptr[4 * rg + i] := i;
    }
  }

  /** my_prep_controller, its buffer and its row pointers. */
  class Prep {
    const rg: nat
    const rows: array<Row>
    const ptr: array<nat>
    var rowsToGo: nat
    var nextBufRow: nat
    var thisRowGroup: nat
    var nextBufStop: nat
    /** The image, and what the downsampler has seen. */
    ghost const image: seq<Row>
    ghost var seen: seq<seq<Row>>
    ghost var start: nat

    ghost predicate Pointers()
      reads ptr
    {
      rg >= 1 && rows.Length == 3 * rg && ptr.Length == 5 * rg && forall i: nat :: i < 5 * rg ==> ptr[i] as int == Wrap(rg, i - rg)
    }

    /** How many rows are stored from the current row group on; padding counts. */
    ghost function Stored(): int
      reads this
    {
      rg + nextBufRow - NextGroup(rg, thisRowGroup)
    }

    ghost predicate Counters()
      reads this
    {
      && image != [] && IsGroup(rg, thisRowGroup) && 0 <= Stored() <= 2 * rg
      && nextBufStop == NextGroup(rg, thisRowGroup) + rg
      && (if start == 0 then thisRowGroup == 0 else Stored() >= rg)
      && rowsToGo == (if start + Stored() <= |image| then |image| - (start + Stored()) else 0)
    }

    ghost predicate Seen()
      reads this`seen, this`start
      requires image != []
    {
      start == |seen| * rg && forall j: nat :: j < |seen| ==> seen[j] == Window(image, rg, j * rg)
    }

    /** The buffer holds what it should, and every window so far was right. */
    ghost predicate Kept()
      reads this, rows, ptr
    {
      && Pointers() && Counters() && Seen()
      && (start + Stored() > 0 ==> InPlace(image, rg, rows[..], thisRowGroup, start, Stored()))
    }

    ghost predicate Valid()
      reads this, rows, ptr
    {
      Kept() && nextBufRow < nextBufStop
    }

    /** start_pass_prep, after create_context_buffer has made the row pointers. */
    constructor (rg: nat, ghost image: seq<Row>, height: nat)
      requires rg >= 1 && height == |image| >= 1
      ensures Valid() && this.rg == rg && this.image == image && seen == [] && rowsToGo == height && fresh(rows) && fresh(ptr)
    {
      this.rg, this.image := rg, image;
      rows := new Row[3 * rg](_ => []);
      var p := CreateContextBuffer(rg);
      ptr := p;
      rowsToGo, nextBufRow, thisRowGroup, nextBufStop := height, 0, 0, 2 * rg;
      seen, start := [], 0;
    }

    /** With toGo rows still to come, the given ones are the next. */
    ghost predicate Coming(input: seq<Row>, toGo: nat)
    {
      |input| <= toGo <= |image| && input == image[|image| - toGo..|image| - toGo + |input|]
    }

    lemma NextRows(input: seq<Row>, toGo: nat, n: nat)
      requires n <= |input| && Coming(input, toGo)
      ensures Coming(input[..n], toGo) && Coming(input[n..], toGo - n)
    {
    }

    lemma ComingRows(input: seq<Row>, toGo: nat, v: nat)
      requires Coming(input, toGo) && input != [] && toGo == if v <= |image| then |image| - v else 0
      ensures |input| <= toGo && v + |input| <= |image| && forall i: nat :: i < |input| ==> input[i] == image[Clamp(v + i, |image|)]
      ensures v == 0 ==> input <= image
    {
    }

    /** color_convert: rows into the buffer from the next one on. */
    method ColorConvert(input: seq<Row>)
      requires Pointers() && nextBufRow + |input| <= 3 * rg
      modifies rows
      ensures forall p: nat :: p < 3 * rg ==> rows[p] == if nextBufRow <= p < nextBufRow + |input| then input[p - nextBufRow] else old(rows[p])
    {
      for i := 0 to |input|
        invariant forall p: nat :: p < 3 * rg ==> rows[p] == if nextBufRow <= p < nextBufRow + i then input[p - nextBufRow] else old(rows[p])
      {
        assert ptr[rg + (nextBufRow + i)] == nextBufRow + i;
        rows[ptr[rg + nextBufRow + i]] := input[i];
      }
    }

    /** The rows above the image repeat its first row. */
    method PadTop()
      requires Pointers()
      modifies rows
      ensures forall p: nat :: p < 3 * rg ==> rows[p] == if p >= 2 * rg then old(rows[0]) else old(rows[p])
    {
      for row := 1 to rg + 1
        invariant forall p: nat :: p < 3 * rg ==> rows[p] == if p > 3 * rg - row then old(rows[0]) else old(rows[p])
      {
        assert ptr[rg] == 0 && ptr[rg - row] == 3 * rg - row;
        rows[ptr[rg - row]] := rows[ptr[rg]];
      }
    }

    /** Take in rows, as many as fit. */
    method Fill(input: seq<Row>, height: nat)
      requires Valid() && height == |image| && 1 <= |input| <= nextBufStop - nextBufRow && Coming(input, rowsToGo)
      modifies this`nextBufRow, this`rowsToGo, rows
      ensures Kept() && nextBufRow == old(nextBufRow) + |input| && rowsToGo == old(rowsToGo) - |input|
    {
      hide Seen, InPlace, Coming, Clamp, Wrap;
      ghost var s0 := rows[..];
      ComingRows(input, rowsToGo, start + Stored());
      ColorConvert(input);
      ghost var s1 := rows[..];
      assert forall p: nat :: p < 3 * rg ==> s1[p] == rows[p];
      if rowsToGo == height {
        PadTop();
        Begin(image, rg, s1, rows[..], input);
      } else {
        Extend(image, rg, s0, s1, thisRowGroup, start, Stored(), input, nextBufRow);
      }
      nextBufRow := nextBufRow + |input|;
      rowsToGo := rowsToGo - |input|;
    }

    /** expand_bottom_edge: repeat the row before the next one up to the stopping point. */
    method Pad()
      requires Valid() && rowsToGo == 0
      modifies this`nextBufRow, rows
      ensures Kept() && nextBufRow == nextBufStop
    {
      hide Seen;
      while nextBufRow < nextBufStop
        invariant Kept() && rowsToGo == 0
        decreases nextBufStop - nextBufRow
      {
        PadRow();
      }
    }

    method PadRow()
      requires Valid() && rowsToGo == 0
      modifies this`nextBufRow, rows
      ensures Kept() && nextBufRow == old(nextBufRow) + 1
    {
      hide Seen;
      ghost var s, d := rows[..], Stored() - 1;
      assert At(image, rg, s, thisRowGroup, start, d);
      rows[ptr[rg + nextBufRow]] := rows[ptr[rg + nextBufRow - 1]];
      Extend(image, rg, s, rows[..], thisRowGroup, start, Stored(), [image[|image| - 1]], nextBufRow);
      nextBufRow := nextBufRow + 1;
    }

    /** What downsample is given: the current row group with its neighbours, through the row pointers. */
    method Downsample() returns (w: seq<Row>)
      requires Kept() && nextBufRow == nextBufStop
      ensures w == Window(image, rg, start)
    {
      hide Seen;
      w := [];
      for e := 0 to 3 * rg
        invariant |w| == e && forall k: nat :: k < e ==> w[k] == image[Clamp(start - rg + k, |image|)]
      {
        ghost var d := e - rg;
        assert At(image, rg, rows[..], thisRowGroup, start, d);
        w := w + [rows[ptr[thisRowGroup + e]]];
      }
    }

    /** Hand over a row group and move on to the next. */
    method Advance()
      requires Kept() && nextBufRow == nextBufStop
      modifies this
      ensures Valid() && rowsToGo == old(rowsToGo) && seen == old(seen) + [Window(image, rg, |old(seen)| * rg)]
    {
      hide InPlace, Window;
      var w := Downsample();
      Shift(image, rg, rows[..], thisRowGroup, start);
      assert (|seen| + 1) * rg == start + rg;
      seen := seen + [w];
      start := start + rg;
      thisRowGroup := thisRowGroup + rg;
      if thisRowGroup >= 3 * rg { thisRowGroup := 0; }
      if nextBufRow >= 3 * rg { nextBufRow := 0; }
      nextBufStop := nextBufRow + rg;
    }

    /** pre_process_context.  Whatever the chunks, every row group is handed over in its turn with the right
        neighbours; and the call stops for want of room or of rows only. */
    method PreProcessContext(input: seq<Row>, inRowCtr: nat, inRowsAvail: nat, outCtr: nat, outAvail: nat, height: nat)
      returns (inRowCtr': nat, outCtr': nat)
      requires Valid() && height == |image| && inRowCtr <= inRowsAvail <= |input| && outCtr <= outAvail
      requires Coming(input[inRowCtr..inRowsAvail], rowsToGo)
      modifies this, rows
      ensures Valid() && inRowCtr <= inRowCtr' <= inRowsAvail && outCtr <= outCtr' <= outAvail
      ensures |seen| == |old(seen)| + (outCtr' - outCtr) && rowsToGo == old(rowsToGo) - (inRowCtr' - inRowCtr)
      ensures outCtr' == outAvail || (inRowCtr' == inRowsAvail && rowsToGo > 0)
      ensures forall k: nat :: k < |seen| ==> Neighbourhood(seen[k], image, rg, k)
    {
      hide Kept, Coming, Neighbourhood;
      inRowCtr', outCtr' := inRowCtr, outCtr;
      while outCtr' < outAvail
        invariant Valid() && inRowCtr <= inRowCtr' <= inRowsAvail && outCtr <= outCtr' <= outAvail
        invariant |seen| == |old(seen)| + (outCtr' - outCtr) && rowsToGo == old(rowsToGo) - (inRowCtr' - inRowCtr)
        invariant Coming(input[inRowCtr'..inRowsAvail], rowsToGo)
        decreases outAvail - outCtr', inRowsAvail - inRowCtr'
      {
        if inRowCtr' < inRowsAvail {
          var inRows := inRowsAvail - inRowCtr';
          var numRows := nextBufStop - nextBufRow;
          if inRows < numRows { numRows := inRows; }
          NextRows(input[inRowCtr'..inRowsAvail], rowsToGo, numRows);
          assert input[inRowCtr'..inRowsAvail][..numRows] == input[inRowCtr'..inRowCtr' + numRows];
          assert input[inRowCtr'..inRowsAvail][numRows..] == input[inRowCtr' + numRows..inRowsAvail];
          Fill(input[inRowCtr'..inRowCtr' + numRows], height);
          inRowCtr' := inRowCtr' + numRows;
        } else {
          if rowsToGo != 0 { break; }
          Pad();
        }
        if nextBufRow == nextBufStop {
          Advance();
          outCtr' := outCtr' + 1;
        }
      }
      AllSeen();
    }

    lemma AllSeen()
      requires Valid()
      ensures image != [] && forall k: nat :: k < |seen| ==> Neighbourhood(seen[k], image, rg, k)
    {
      hide InPlace, Neighbourhood, Window;
      forall k: nat | k < |seen| ensures Neighbourhood(seen[k], image, rg, k) {
        assert seen[k] == Window(image, rg, k * rg);
        WindowAround(image, rg, k);
      }
    }
  }

  lemma WindowAround(image: seq<Row>, rg: nat, k: nat)
    requires image != []
    ensures Neighbourhood(Window(image, rg, k * rg), image, rg, k)
  {
    var w := Window(image, rg, k * rg);
    forall e: nat | e < 3 * rg
      ensures var p := k * rg + e - rg; w[e] == if p < 0 then image[0] else if p >= |image| then image[|image| - 1] else image[p]
    {
      assert w[e] == image[Clamp(k * rg - rg + e, |image|)];
    }
  }
}
