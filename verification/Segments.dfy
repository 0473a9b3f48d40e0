// Restart intervals: how emit_restart divides the output into segments and how process_restart,
// read_restart_marker and next_marker carry the decoder from one segment to the next.
module Segments {
  import opened Wrappers
  import opened Bits
  import opened BitReader
  import opened BitWriter

  const RST0: nat := 0xD0

  function RestartCode(n: nat): byte { RST0 + n % 8 }

  /** Finished segments, each padded to bytes and followed by its restart marker. */
  function Marked(segs: seq<seq<bool>>): seq<byte> {
    if segs == [] then []
    else
      var n := |segs| - 1;
      Marked(segs[..n]) + Bytes(segs[n] + Pad(segs[n])) + [0xFF, RestartCode(n)]
  }

  /** A whole scan: its finished segments and the last one. */
  function ScanBytes(segs: seq<seq<bool>>): seq<byte>
    requires segs != []
  {
    Marked(segs[..|segs| - 1]) + Bytes(segs[|segs| - 1] + Pad(segs[|segs| - 1]))
  }

  /** The bytes from segment i on. */
  function From(segs: seq<seq<bool>>, i: nat, t: seq<byte>): seq<byte>
    requires i < |segs|
    decreases |segs| - i
  {
    Bytes(segs[i] + Pad(segs[i])) + if i == |segs| - 1 then t else [0xFF, RestartCode(i)] + From(segs, i + 1, t)
  }

  lemma {:induction false} MarkedThenFrom(segs: seq<seq<bool>>, i: nat, t: seq<byte>)
    requires i < |segs|
    ensures ScanBytes(segs) + t == Marked(segs[..i]) + From(segs, i, t)
    decreases |segs| - i
  {
    hide Bytes, Pad;
    if i < |segs| - 1 {
      MarkedThenFrom(segs, i + 1, t);
      assert segs[..i + 1][..i] == segs[..i];
    }
  }

  /** A scan is its first segment and what follows. */
  lemma ScanFrom(segs: seq<seq<bool>>, t: seq<byte>)
    requires segs != []
    ensures ScanBytes(segs) + t == From(segs, 0, t)
  {
    MarkedThenFrom(segs, 0, t);
  }

  /** What ends segment i: its restart marker with the segments after it, or what follows the scan. */
  function EndOf(segs: seq<seq<bool>>, i: nat, m: byte, t: seq<byte>): (byte, seq<byte>)
    requires i < |segs|
  {
    if i == |segs| - 1 then (m, t) else (RestartCode(i), From(segs, i + 1, [0xFF, m] + t))
  }

  /** Each segment reads back as its own bits and padding, up to the marker that ends it. */
  lemma FromReads(segs: seq<seq<bool>>, i: nat, m: byte, t: seq<byte>)
    requires i < |segs| && m != 0 && m != 0xFF
    ensures Destuff(From(segs, i, [0xFF, m] + t)) == segs[i] + Pad(segs[i])
    ensures MarkerIn(From(segs, i, [0xFF, m] + t)) == Some(EndOf(segs, i, m, t))
  {
    hide Bytes, Pad, Destuff, MarkerIn, StubIn;
    var (c, rest) := EndOf(segs, i, m, t);
    SegmentReads(segs[i], c, rest);
    assert From(segs, i, [0xFF, m] + t) == Bytes(segs[i] + Pad(segs[i])) + [0xFF, c] + rest;
  }

  // ---------- encoder ----------

  /** flush_bits and the marker of emit_restart. */
  method EmitMarker(w: Writer, restartNum: nat, ghost segs: seq<seq<bool>>, ghost b: seq<bool>) returns (status: Status, w': Writer)
    requires Holds(w, Marked(segs), b) && restartNum == |segs| % 8
    ensures !status.MissingCode? && !status.BadCoef?
    ensures status.Fine? ==> Holds(w', Marked(segs + [b]), [])
    ensures status.Fine? ==> w'.out == Marked(segs) + Bytes(b + Pad(b)) + [0xFF, 0xD0 + restartNum]
    ensures w'.Capacity() == w.Capacity() && (status.Refused? ==> w'.Spent()) && Later(w, w')
    ensures status.Fine? <==> w.Capacity() > |Marked(segs + [b])|
  {
    hide Bytes, Pad, Left, Sum, Pow2, Writer.Capacity;
    ghost var pre := Marked(segs);
    assert (segs + [b])[..|segs|] == segs;
    status, w' := FlushBits(w, pre, b);
    if !status.Fine? { return; }
    var ok;
    ok, w' := EmitByte(w', 0xFF);
    if ok { ok, w' := EmitByte(w', RST0 + restartNum); }
    if !ok { return Refused, w'; }
    assert Holds(w', Marked(segs + [b]), []) by { HoldsNothing(w', Marked(segs + [b])); }
  }

  lemma HoldsNothing(w: Writer, pre: seq<byte>)
    requires w.out == pre && w.putBuffer == 0 && w.putBits == 0 && w.start <= |w.out|
    ensures Holds(w, pre, [])
  {
    assert Aligned(0, 0, []) by { JoinAt(0, 0, REGISTER); ShlPow2(REGISTER); }
  }

  // ---------- decoder ----------

  /** next_marker: the walk over data bytes to the next marker is the one that destuffing takes. */
  method NextMarker(input: seq<byte>, pos0: nat) returns (r: Option<(byte, nat)>)
    requires pos0 <= |input|
    ensures r.None? <==> MarkerIn(input[pos0..]).None?
    ensures r.Some? ==> r.value.1 <= |input| && MarkerIn(input[pos0..]) == Some((r.value.0, input[r.value.1..]))
  {
    var pos := pos0;
    while true
      invariant pos0 <= pos <= |input| && MarkerIn(input[pos..]) == MarkerIn(input[pos0..])
      decreases |input| - pos
    {
      hide AfterFF, NextUnit;
      var u := ReadByte(input, pos);
      if u.Starved? { return None; }
      assert input[pos..][u.used..] == input[pos + u.used..];
      pos := pos + u.used;
      if u.Marker? { return Some((u.code, pos)); }
    }
  }

  /** Resumed, out of input, or facing a marker that calls for resynchronisation. */
  datatype Restart = Resumed | Suspended | OutOfStep

  /** process_restart and read_restart_marker: drop what is left in the register, pass the expected
      marker, and go on with the next segment. */
  method ProcessRestart(r: Reader, nextNum: nat) returns (res: Restart, r': Reader)
    requires r.Valid() && nextNum < 8
    ensures res.Suspended? <==> r.End().None?
    ensures res.Resumed? <==> r.End().Some? && r.End().value.0 == 0xD0 + nextNum == RestartCode(nextNum)
    ensures r'.Valid() && r'.input == r.input && r'.bitsLeft == 0
    ensures res.Resumed? ==> r'.unreadMarker == 0 && !r'.insufficient
    ensures res.Resumed? ==> r'.Rest() == Destuff(r.End().value.1) && r'.Future() == (MarkerIn(r.End().value.1), StubIn(r.End().value.1))
    ensures res.Suspended? ==> r' == r.(bitsLeft := 0)
  {
    hide Destuff, MarkerIn, StubIn, Pow2, NextUnit;
    r' := r.(bitsLeft := 0);
    if r'.unreadMarker == 0 {
      var m := NextMarker(r'.input, r'.pos);
      if m.None? { return Suspended, r'; }
      r' := r'.(unreadMarker := m.value.0, pos := m.value.1);
    }
    if r'.unreadMarker == RST0 + nextNum {
      r' := r'.(unreadMarker := 0, insufficient := false);
      res := Resumed;
      assert Bin(r'.getBuffer, 0) == [];
    } else {
      res := OutOfStep;
    }
  }
}
