// Shifts, masks and bit strings (most significant bit first): the abstract form of
// everything that emit_bits writes and GET_BITS reads.  Shifts are iterated halving and
// doubling, so negative numbers behave as in two's complement.
module Bits {

  function Pow2(n: nat): (p: nat)
    ensures p >= 1
  {
    if n == 0 then 1 else 2 * Pow2(n - 1)
  }

  type byte = b: int | 0 <= b < 256

  /** v >> n */
  function Shr(v: int, n: nat): int
    decreases n, v
  {
    if n == 0 then v else Shr(v / 2, n - 1)
  }

  /** v << n */
  function Shl(v: int, n: nat): int
    decreases n, v
  {
    if n == 0 then v else 2 * Shl(v, n - 1)
  }

  /** v & ((1 << n) - 1) */
  function Low(v: int, n: nat): (r: nat)
    ensures r < Pow2(n)
    decreases n, v
  {
    if n == 0 then 0 else 2 * Low(v / 2, n - 1) + v % 2
  }

  /** The low n bits of v. */
  function Bin(v: int, n: nat): (b: seq<bool>)
    ensures |b| == n
    decreases n, v
  {
    if n == 0 then [] else Bin(v / 2, n - 1) + [v % 2 == 1]
  }

  /** The number a bit string denotes. */
  function Val(b: seq<bool>): (v: nat)
    ensures v < Pow2(|b|)
  {
    if b == [] then 0 else 2 * Val(b[..|b| - 1]) + (if b[|b| - 1] then 1 else 0)
  }

  /** v | w, bit by bit. */
  function Or(v: nat, w: nat): nat {
    if v == 0 then w else if w == 0 then v
    else 2 * Or(v / 2, w / 2) + (if v % 2 == 1 || w % 2 == 1 then 1 else 0)
  }

  lemma ShiftNone(v: int)
    ensures Shr(v, 0) == Shl(v, 0) == v && Bin(v, 0) == []
  {
  }

  lemma Pow2Double(n: nat)
    ensures Pow2(n + 1) == 2 * Pow2(n)
  {
  }

  lemma Pow2Mono(m: nat, n: nat)
    requires m <= n
    ensures Pow2(m) <= Pow2(n)
    decreases n
  {
    if m < n { Pow2Mono(m, n - 1); }
  }

  lemma {:induction false} Pow2Positive(n: nat)
    ensures Pow2(n) > 0
  {
    if n > 0 { Pow2Positive(n - 1); }
  }

  lemma Pow2Values()
    ensures Pow2(0) == 1 && Pow2(1) == 2 && Pow2(3) == 8 && Pow2(4) == 16
    ensures Pow2(7) == 0x80 && Pow2(8) == 0x100 && Pow2(10) == 0x400
    ensures Pow2(11) == 0x800 && Pow2(14) == 0x4000 && Pow2(15) == 0x8000 && Pow2(16) == 0x1_0000 && Pow2(17) == 0x2_0000
  {
    assert Pow2(8) == 0x100;
  }

  lemma ShlPow2(n: nat)
    ensures Shl(1, n) == Pow2(n) && Shl(-1, n) == 0 - Pow2(n) && Shl(0, n) == 0
  {
  }

  lemma {:induction false} ShlTimes(v: int, n: nat)
    ensures Shl(v, n) == v * Pow2(n)
  {
    if n > 0 { ShlTimes(v, n - 1); }
  }

  lemma {:induction n} ShlAdd(v: int, w: int, n: nat)
    ensures Shl(v + w, n) == Shl(v, n) + Shl(w, n)
  {
  }

  lemma {:induction n} ShlMono(v: int, w: int, n: nat)
    requires v <= w
    ensures Shl(v, n) <= Shl(w, n)
  {
  }

  /** Doubling from the inside or from the outside. */
  lemma {:induction n} ShlInner(v: int, n: nat)
    ensures Shl(2 * v, n) == 2 * Shl(v, n)
  {
  }

  lemma {:induction n} ShlShl(v: int, m: nat, n: nat)
    ensures Shl(Shl(v, m), n) == Shl(v, m + n)
  {
  }

  lemma {:induction false} ShrShr(v: int, m: nat, n: nat)
    ensures Shr(Shr(v, m), n) == Shr(v, m + n)
    decreases m
  {
    if m > 0 { ShrShr(v / 2, m - 1, n); }
  }

  lemma ShrLast(v: int, n: nat)
    ensures Shr(v, n + 1) == Shr(v, n) / 2
  {
    ShrShr(v, n, 1);
  }

  lemma {:induction false} ShrZero(v: nat, n: nat)
    ensures Shr(v, n) >= 0 && (v < Pow2(n) <==> Shr(v, n) == 0)
  {
    if n > 0 { ShrZero(v / 2, n - 1); }
  }

  /** Every number is its shifted part plus its masked part. */
  lemma {:induction false} SplitAt(v: int, n: nat)
    ensures v == Shl(Shr(v, n), n) + Low(v, n)
    decreases n
  {
    if n > 0 { SplitAt(v / 2, n - 1); }
  }

  /** ... in exactly one way. */
  lemma {:induction false} JoinAt(q: int, r: nat, n: nat)
    requires r < Pow2(n)
    ensures Shr(Shl(q, n) + r, n) == q && Low(Shl(q, n) + r, n) == r
    decreases n
  {
    if n > 0 {
      JoinAt(q, r / 2, n - 1);
      assert (Shl(q, n) + r) / 2 == Shl(q, n - 1) + r / 2;
    }
  }

  lemma LowSmall(v: nat, n: nat)
    requires v < Pow2(n)
    ensures Low(v, n) == v
  {
    ShlPow2(n);
    JoinAt(0, v, n);
  }

  lemma {:induction false} LowLow(v: int, m: nat, n: nat)
    requires n <= m
    ensures Low(Low(v, m), n) == Low(v, n)
    decreases n
  {
    if n > 0 { LowLow(v / 2, m - 1, n - 1); }
  }

  lemma {:induction false} ValBin(v: int, n: nat)
    ensures Val(Bin(v, n)) == Low(v, n)
    decreases n
  {
    if n > 0 {
      ValBin(v / 2, n - 1);
      assert Bin(v, n)[..n - 1] == Bin(v / 2, n - 1);
    }
  }

  lemma {:induction false} BinVal(b: seq<bool>)
    ensures Bin(Val(b), |b|) == b
  {
    if b != [] {
      var b' := b[..|b| - 1];
      BinVal(b');
      assert Val(b) / 2 == Val(b');
      assert b == b' + [b[|b| - 1]];
    }
  }

  lemma {:induction false} BinLow(v: int, m: nat, n: nat)
    requires n <= m
    ensures Bin(Low(v, m), n) == Bin(v, n)
    decreases n
  {
    if n > 0 { BinLow(v / 2, m - 1, n - 1); }
  }

  /** The low m + n bits are the low m bits of the shifted number and then its low n bits. */
  lemma {:induction false} BinSplit(v: int, m: nat, n: nat)
    ensures Bin(v, m + n) == Bin(Shr(v, n), m) + Bin(v, n)
    decreases n
  {
    if n > 0 {
      BinSplit(v / 2, m, n - 1);
      assert Bin(v, m + n) == Bin(v / 2, m + (n - 1)) + [v % 2 == 1];
    }
  }

  lemma BinJoin(q: int, r: nat, m: nat, n: nat)
    requires r < Pow2(n)
    ensures Bin(Shl(q, n) + r, m + n) == Bin(q, m) + Bin(r, n)
  {
    BinSplit(Shl(q, n) + r, m, n);
    JoinAt(q, r, n);
    BinLow(Shl(q, n) + r, n, n);
  }

  lemma {:induction false} ShlNat(v: nat, n: nat)
    ensures Shl(v, n) >= v
  {
    if n > 0 { ShlNat(v, n - 1); }
  }

  /** Merging fields that share no bit: the or is the sum. */
  lemma {:induction false} OrDisjoint(q: nat, r: nat, n: nat)
    requires r < Pow2(n)
    ensures Shl(q, n) >= 0
    ensures Or(Shl(q, n), r) == Shl(q, n) + r && Or(r, Shl(q, n)) == Shl(q, n) + r
    decreases n
  {
    ShlNat(q, n);
    if n > 0 && r > 0 && Shl(q, n) > 0 { OrDisjoint(q, r / 2, n - 1); }
  }

  /** Shifting within a fixed width loses only the bits shifted out. */
  lemma {:induction false} LowShl(v: int, m: nat, n: nat)
    ensures Low(Shl(v, n), m + n) == Shl(Low(v, m), n)
    decreases n
  {
    if n > 0 { LowShl(v, m, n - 1); }
  }

  /** Appending n bits to a register of the given width. */
  lemma BinAppend(v: nat, r: nat, width: nat, m: nat, n: nat)
    requires r < Pow2(n) && m + n <= width
    ensures Low(Shl(v, n), width) >= 0
    ensures Bin(Or(Low(Shl(v, n), width), r), m + n) == Bin(v, m) + Bin(r, n)
    ensures Or(Low(Shl(v, n), width), r) < Pow2(width)
  {
    hide Bin, Shl, Or, Low;
    var low := Low(v, width - n);
    LowShl(v, width - n, n);
    OrDisjoint(low, r, n);
    BinJoin(low, r, m, n);
    BinLow(v, width - n, m);
    ShlMono(low, Pow2(width - n) - 1, n);
    ShlAdd(Pow2(width - n), -1, n);
    ShlPow2(n);
    ShlPow2(width - n);
    ShlPow2(width);
    ShlShl(1, width - n, n);
  }

  /** A field that lies within the masked width. */
  lemma {:induction false} BinShrLow(v: int, width: nat, k: nat, n: nat)
    requires k + n <= width
    ensures Bin(Shr(Low(v, width), k), n) == Bin(Shr(v, k), n)
    decreases k
  {
    if k == 0 { BinLow(v, width, n); } else { BinShrLow(v / 2, width - 1, k - 1, n); }
  }

  lemma {:induction false} ShrShl(v: int, a: nat, b: nat)
    ensures Shr(Shl(v, a), a + b) == Shr(v, b)
    decreases a
  {
    if a > 0 { ShrShl(v, a - 1, b); }
  }
}
