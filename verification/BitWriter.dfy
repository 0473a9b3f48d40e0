// emit_bits and flush_bits (the same code in jchuff.c and jcphuff.c): a 24-bit left-justified
// register, byte stuffing, and an output buffer that may refuse to be emptied.
module BitWriter {
  import opened Wrappers
  import opened Bits
  import opened BitReader

  const REGISTER: nat := 24
  const INT32_BITS: nat := 32

  /** Fine, or why the caller must stop: JERR_HUFF_MISSING_CODE, JERR_BAD_DCT_COEF, or a refusing
      destination. */
  datatype Status = Fine | MissingCode | BadCoef | Refused

  function Stuffed(c: byte): seq<byte> {
    if c == 0xFF then [0xFF, 0] else [c]
  }

  /** Bits b cut into stuffed bytes, and the fewer than eight bits left over. */
  function Bytes(b: seq<bool>): seq<byte> {
    if |b| < 8 then [] else (Pow2Values(); Stuffed(Val(b[..8]))) + Bytes(b[8..])
  }

  function Left(b: seq<bool>): (r: seq<bool>)
    ensures |r| < 8
  {
    if |b| < 8 then b else Left(b[8..])
  }

  lemma {:induction false} BytesAppend(b: seq<bool>, x: seq<bool>)
    ensures Bytes(b + x) == Bytes(b) + Bytes(Left(b) + x)
    ensures Left(b + x) == Left(Left(b) + x)
    decreases |b|
  {
    if |b| >= 8 {
      assert (b + x)[..8] == b[..8] && (b + x)[8..] == b[8..] + x;
      BytesAppend(b[8..], x);
    }
  }

  lemma DestuffOne(c: byte, rest: seq<byte>)
    ensures Destuff(Stuffed(c) + rest) == Bin(c, 8) + Destuff(rest)
    ensures MarkerIn(Stuffed(c) + rest) == MarkerIn(rest)
  {
    hide Bin;
    var s := Stuffed(c) + rest;
    assert s[|Stuffed(c)|..] == rest;
    assert NextUnit(s) == Data(c, |Stuffed(c)|);
  }

  /** The decoder sees exactly the bits written: destuffing inverts stuffing. */
  lemma {:induction false} DestuffBytes(b: seq<bool>, t: seq<byte>)
    ensures |Left(b)| <= |b| && b == b[..|b| - |Left(b)|] + Left(b)
    ensures Destuff(Bytes(b) + t) == b[..|b| - |Left(b)|] + Destuff(t)
    ensures MarkerIn(Bytes(b) + t) == MarkerIn(t)
    decreases |b|
  {
    hide Destuff, MarkerIn, StubIn, Bin, Val;
    if |b| < 8 {
      assert Bytes(b) + t == t;
    } else {
      Pow2Values();
      var c: byte := Val(b[..8]);
      DestuffBytes(b[8..], t);
      BinVal(b[..8]);
      assert Bytes(b) + t == Stuffed(c) + (Bytes(b[8..]) + t);
      DestuffOne(c, Bytes(b[8..]) + t);
      assert b == b[..8] + b[8..];
    }
  }

  /** Section F.1.2.3: no 0xFF among the data bytes is followed by anything but zero. */
  lemma {:induction false} NoFalseMarker(b: seq<bool>, i: nat)
    requires i < |Bytes(b)| && Bytes(b)[i] == 0xFF
    ensures i + 1 < |Bytes(b)| && Bytes(b)[i + 1] == 0
    decreases |b|
  {
    var n := |(Pow2Values(); Stuffed(Val(b[..8])))|;
    if i >= n { NoFalseMarker(b[8..], i - n); }
  }

  type room = n: int | 1 <= n witness 1

  /** The writer: the bytes given to the destination so far, where in them its present buffer starts,
      the room in that buffer, the sizes of the buffers it will still provide before it refuses, and
      the register. */
  datatype Writer = Writer(out: seq<byte>, start: nat, free: room, grants: seq<room>, putBuffer: nat, putBits: nat)
  {
    /** At most seven bits are kept between calls, left-justified in 24. */
    ghost predicate Valid() {
      putBits < 8 && start <= |out| && Aligned(putBuffer, putBits, Pending())
    }

    function Pending(): seq<bool> {
      if putBits <= REGISTER then Bin(Shr(putBuffer, REGISTER - putBits), putBits) else []
    }

    /** The destination refuses before its output reaches this length. */
    function Capacity(): int { |out| + free + Sum(grants) }

    /** The next byte fills the last buffer there is. */
    predicate Spent() { free == 1 && grants == [] }
  }

  /** w' is w after some more bytes; the destination took its buffer in between just if the start of
      the buffer has moved, which it does not if there is no other buffer. */
  ghost predicate Later(w: Writer, w': Writer) {
    && w.out <= w'.out && w'.start <= |w'.out|
    && (w.grants == [] ==> w'.start == w.start)
    && (if w'.start == w.start then w'.grants == w.grants && w'.free + |w'.out| == w.free + |w.out| else |w.out| < w'.start)
  }

  /** Whoever has come to the last byte of the last buffer has taken a new one on the way just if there was one. */
  lemma SpentMoved(w: Writer, w': Writer)
    requires Later(w, w') && w'.Spent()
    ensures w'.start == w.start <==> w.grants == []
  {
  }

  function Sum(g: seq<room>): nat {
    if g == [] then 0 else g[0] + Sum(g[1..])
  }

  /** Since the output `pre`, exactly the bits b have been written. */
  ghost predicate Holds(w: Writer, pre: seq<byte>, b: seq<bool>) {
    w.Valid() && w.out == pre + Bytes(b) && w.Pending() == Left(b)
  }

  /** The top n of the register's 24 bits are x and the rest are zero. */
  ghost predicate Aligned(reg: nat, n: nat, x: seq<bool>) {
    n <= REGISTER && Low(reg, REGISTER - n) == 0 && x == Bin(Shr(reg, REGISTER - n), n)
  }

  /** Masking, aligning and merging new bits behind the old ones. */
  lemma Merge(reg: nat, p: nat, x: seq<bool>, code: int, size: nat)
    requires Aligned(reg, p, x) && p + size <= REGISTER
    ensures Shl(Low(code, size), REGISTER - (p + size)) >= 0
    ensures Aligned(Or(Shl(Low(code, size), REGISTER - (p + size)), reg), p + size, x + Bin(code, size))
  {
    hide Or, Low, Shl, Shr, Bin;
    var k, c := REGISTER - (p + size), Low(code, size);
    var h := Shr(reg, k + size);
    SplitAt(reg, k + size);
    ShrZero(reg, k + size);
    ShlMono(c, Pow2(size) - 1, k);
    ShlAdd(Pow2(size), -1, k);
    ShlPow2(k);
    ShlPow2(size);
    ShlShl(1, size, k);
    ShlPow2(size + k);
    ShlNat(c, k);
    OrDisjoint(h, Shl(c, k), k + size);
    ShlShl(h, size, k);
    ShlAdd(Shl(h, size), c, k);
    JoinAt(Shl(h, size) + c, 0, k);
    BinJoin(h, c, p, size);
    BinLow(code, size, size);
    ShlNat(h, size);
  }

  /** Taking the top eight bits off the register. */
  lemma TakeByte(reg: nat, n: nat, x: seq<bool>)
    requires Aligned(reg, n, x) && n >= 8
    ensures Shr(reg, 16) >= 0 && x[..8] == Bin(Low(Shr(reg, 16), 8), 8) && Val(x[..8]) == Low(Shr(reg, 16), 8)
    ensures Low(Shl(reg, 8), INT32_BITS) >= 0 && Aligned(Low(Shl(reg, 8), INT32_BITS), n - 8, x[8..])
  {
    hide Low, Shl, Shr, Bin;
    var u := Shr(reg, REGISTER - n);
    BinSplit(u, 8, n - 8);
    ShrShr(reg, REGISTER - n, n - 8);
    ShrZero(reg, 16);
    BinLow(Shr(reg, 16), 8, 8);
    ValBin(Shr(reg, 16), 8);
    BinShrLow(Shl(reg, 8), INT32_BITS, INT32_BITS - n, n - 8);
    ShrShl(reg, 8, REGISTER - n);
    LowLow(Shl(reg, 8), INT32_BITS, INT32_BITS - n);
    LowShl(reg, REGISTER - n, 8);
    ShlPow2(8);
  }

  method EmitByte(w: Writer, val: byte) returns (ok: bool, w': Writer)
    requires w.start <= |w.out|
    ensures ok <==> w.Capacity() > |w.out| + 1
    ensures ok ==> w' == w.(out := w.out + [val], start := w'.start, free := w'.free, grants := w'.grants)
    ensures !ok ==> w' == w && w.Spent()
    ensures w'.Capacity() == w.Capacity() && Later(w, w')
  {
    var free := w.free - 1;
    if free == 0 {
      if w.grants == [] { return false, w; }
      w' := w.(out := w.out + [val], start := |w.out| + 1, free := w.grants[0], grants := w.grants[1..]);
    } else {
      w' := w.(out := w.out + [val], free := free);
    }
    ok := true;
  }

  /** A data byte, with a zero stuffed after 0xFF. */
  method EmitStuffed(w: Writer, c: byte) returns (ok: bool, w': Writer)
    requires w.start <= |w.out|
    ensures ok <==> w.Capacity() > |w.out + Stuffed(c)|
    ensures ok ==> w' == w.(out := w.out + Stuffed(c), start := w'.start, free := w'.free, grants := w'.grants)
    ensures w'.Capacity() == w.Capacity() && (!ok ==> w'.Spent()) && Later(w, w')
  {
    ok, w' := EmitByte(w, c);
    if ok && c == 0xFF {
      ok, w' := EmitByte(w', 0);
    }
  }

  /** The loop of emit_bits: hand over whole bytes until fewer than eight bits are left. */
  method Drain(w: Writer, putBuffer0: nat, putBits0: nat, ghost x0: seq<bool>) returns (ok: bool, w': Writer)
    requires Aligned(putBuffer0, putBits0, x0) && w.start <= |w.out|
    ensures ok <==> w.Capacity() > |w.out + Bytes(x0)|
    ensures ok ==> w'.Valid() && w'.Pending() == Left(x0)
    ensures ok ==> w'.out == w.out + Bytes(x0)
    ensures w'.Capacity() == w.Capacity() && (!ok ==> w'.Spent()) && Later(w, w')
  {
    hide Aligned, Bytes, Left, Low, Shl, Shr, Bin, Stuffed, Sum;
    var putBuffer, putBits := putBuffer0, putBits0;
    ghost var x := x0;
    AlignedLength(putBuffer, putBits, x);
    w' := w;
    while putBits >= 8
      invariant |x| == putBits && Aligned(putBuffer, putBits, x)
      invariant w'.out + Bytes(x) == w.out + Bytes(x0) && Left(x) == Left(x0)
      invariant w'.Capacity() == w.Capacity() > |w'.out| && Later(w, w')
    {
      TakeByte(putBuffer, putBits, x);
      TopByte(x);
      var c := Low(Shr(putBuffer, 16), 8);
      ok, w' := EmitStuffed(w', c);
      if !ok { return; }
      putBuffer := Low(Shl(putBuffer, 8), INT32_BITS);
      putBits := putBits - 8;
      x := x[8..];
    }
    AllTaken(x);
    w' := w'.(putBuffer := putBuffer, putBits := putBits);
    AlignedPending(w', x);
    ok := true;
  }

  /** emit_bits: append the low `size` bits of `code`. */
  method EmitBits(w: Writer, code: int, size: nat, ghost pre: seq<byte>, ghost b: seq<bool>)
    returns (status: Status, w': Writer)
    requires Holds(w, pre, b) && size <= 16
    ensures (status.MissingCode? <==> size == 0) && !status.BadCoef?
    ensures size > 0 ==> (status.Fine? <==> w.Capacity() > |pre| + |Bytes(b + Bin(code, size))|)
    ensures status.Fine? ==> Holds(w', pre, b + Bin(code, size))
    ensures w'.Capacity() == w.Capacity() && (status.Refused? ==> w'.Spent()) && Later(w, w')
  {
    hide Aligned, Bytes, Left, Low, Shl, Shr, Or, Bin, Sum;
    if size == 0 { return MissingCode, w; }
    BytesAppend(b, Bin(code, size));
    Merge(w.putBuffer, w.putBits, w.Pending(), code, size);
    var putBuffer: nat := Low(code, size);
    var putBits := w.putBits + size;
    putBuffer := Shl(putBuffer, REGISTER - putBits);
    putBuffer := Or(putBuffer, w.putBuffer);
    ghost var x := w.Pending() + Bin(code, size);
    assert pre + Bytes(b) + Bytes(x) == pre + (Bytes(b) + Bytes(x));
    var ok;
    ok, w' := Drain(w, putBuffer, putBits, x);
    status := if ok then Fine else Refused;
  }

  lemma TopByte(x: seq<bool>)
    requires |x| >= 8
    ensures Val(x[..8]) < 256 && Bytes(x) == Stuffed(Val(x[..8])) + Bytes(x[8..]) && Left(x) == Left(x[8..])
  {
    Pow2Values();
  }

  lemma AllTaken(x: seq<bool>)
    requires |x| < 8
    ensures Bytes(x) == [] && Left(x) == x
  {
  }

  lemma AlignedLength(reg: nat, n: nat, x: seq<bool>)
    requires Aligned(reg, n, x)
    ensures |x| == n
  {
  }

  lemma AlignedPending(w: Writer, x: seq<bool>)
    requires Aligned(w.putBuffer, w.putBits, x) && w.putBits < 8 && w.start <= |w.out|
    ensures w.Valid() && w.Pending() == x
  {
  }

  // ---------- flush_bits ----------

  function Ones(n: nat): seq<bool> { seq(n, _ => true) }

  lemma SevenOnes()
    ensures Bin(0x7F, 7) == Ones(7)
  {
    assert Bin(0x7F, 7) == [true, true, true, true, true, true, true];
  }

  /** The padding that brings b to a whole number of bytes. */
  function Pad(b: seq<bool>): seq<bool> {
    Ones((8 - |Left(b)|) % 8)
  }

  lemma {:induction false} LeftLength(b: seq<bool>)
    ensures |Left(b)| == |b| % 8
    decreases |b|
  {
    if |b| >= 8 { LeftLength(b[8..]); }
  }

  /** Fewer than eight ones, up to the next whole byte (section F.1.2.3). */
  lemma PadOnes(b: seq<bool>)
    ensures |Pad(b)| < 8 && (|b| + |Pad(b)|) % 8 == 0 && forall i :: 0 <= i < |Pad(b)| ==> Pad(b)[i]
  {
    LeftLength(b);
  }

  /** Seven ones complete the last byte, and what they leave over is dropped. */
  lemma PadBytes(b: seq<bool>)
    ensures Bytes(b + Ones(7)) == Bytes(b + Pad(b)) && Left(b + Pad(b)) == []
  {
    var l, p := Left(b), Pad(b);
    BytesAppend(b, Ones(7));
    BytesAppend(b, p);
    if l == [] {
      assert Bytes(l + Ones(7)) == [] == Bytes(l + p);
    } else {
      assert (l + Ones(7))[..8] == l + p == (l + p)[..8];
    }
  }

  /** flush_bits: fill any partial byte with ones and empty the register. */
  method FlushBits(w: Writer, ghost pre: seq<byte>, ghost b: seq<bool>) returns (status: Status, w': Writer)
    requires Holds(w, pre, b)
    ensures !status.MissingCode? && !status.BadCoef? && (status.Fine? <==> w.Capacity() > |pre| + |Bytes(b + Pad(b))|)
    ensures status.Fine? ==> w'.out == pre + Bytes(b + Pad(b)) && w'.putBuffer == 0 && w'.putBits == 0
    ensures w'.Capacity() == w.Capacity() && (status.Refused? ==> w'.Spent()) && Later(w, w')
  {
    SevenOnes();
    PadBytes(b);
    status, w' := EmitBits(w, 0x7F, 7, pre, b);
    if !status.Fine? { return; }
    w' := w'.(putBuffer := 0, putBits := 0);
  }

  /** A finished segment reads back as its bits and their padding. */
  lemma SegmentReads(b: seq<bool>, m: byte, t: seq<byte>)
    requires m != 0 && m != 0xFF
    ensures Destuff(Bytes(b + Pad(b)) + [0xFF, m] + t) == b + Pad(b)
    ensures MarkerIn(Bytes(b + Pad(b)) + [0xFF, m] + t) == Some((m, t))
  {
    hide Destuff, MarkerIn, StubIn, Bytes, Left, Pad;
    PadBytes(b);
    var s := [0xFF, m] + t;
    DestuffBytes(b + Pad(b), s);
    assert Bytes(b + Pad(b)) + [0xFF, m] + t == Bytes(b + Pad(b)) + s;
    MarkerNow(m, t);
  }

  lemma MarkerNow(m: byte, t: seq<byte>)
    requires m != 0 && m != 0xFF
    ensures Destuff([0xFF, m] + t) == [] && MarkerIn([0xFF, m] + t) == Some((m, t))
  {
    var s := [0xFF, m] + t;
    assert NextUnit(s) == AfterFF(s, 1) == Marker(m, 2);
    assert s[2..] == t;
  }
}
