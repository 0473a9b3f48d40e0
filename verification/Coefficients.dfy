// Coefficient values: the magnitude categories of sections F.1.2 and F.2.2 of T.81, and the point
// transforms of section G.1.2.
module Coefficients {
  import opened Bits

  const MAX_COEF_BITS: nat := 10

  function Abs(v: int): nat { if v < 0 then -v else v }

  /** How many bits the magnitude needs: the loops that shift temp down to zero. */
  function NBits(v: nat): (n: nat)
    ensures v < Pow2(n) && (v > 0 ==> n > 0 && Pow2(n - 1) <= v)
  {
    if v == 0 then 0 else 1 + NBits(v / 2)
  }

  lemma {:induction false} NBitsBound(v: nat, n: nat)
    requires v < Pow2(n)
    ensures NBits(v) <= n
  {
    if v > 0 { NBitsBound(v / 2, n - 1); }
  }

  /** What is sent after the category: the number itself, or the complement of its magnitude. */
  function Complement(v: int): int { if v < 0 then v - 1 else v }

  /** HUFF_EXTEND (figure F.12). */
  function Extend(x: nat, s: nat): int
    requires s > 0
  {
    if x < Pow2(s - 1) then x - Pow2(s) + 1 else x
  }

  lemma ExtendComplement(v: int)
    requires v != 0
    ensures Extend(Low(Complement(v), NBits(Abs(v))), NBits(Abs(v))) == v
  {
    var n := NBits(Abs(v));
    ShlPow2(n);
    if v < 0 {
      JoinAt(-1, v - 1 + Pow2(n), n);
    } else {
      LowSmall(v, n);
    }
  }

  /** |v| >> al, the magnitude the scans with this al transmit. */
  function Mag(v: int, al: nat): nat {
    ShrZero(Abs(v), al);
    Shr(Abs(v), al)
  }

  /** The magnitude at precision al with its sign: rounding toward zero. */
  function Signed(v: int, al: nat): int {
    if v < 0 then 0 - Mag(v, al) as int else Mag(v, al)
  }

  /** What a decoder that has seen AC coefficient v down to bit al holds. */
  function Point(v: int, al: nat): int {
    Shl(Signed(v, al), al)
  }

  lemma PointZero(v: int)
    ensures Point(v, 0) == v
  {
  }

  lemma MagHalf(v: int, al: nat)
    ensures Mag(v, al + 1) == Mag(v, al) / 2
  {
    ShrLast(Abs(v), al);
  }

  lemma ShlSign(v: int, n: nat)
    ensures (Shl(v, n) > 0 <==> v > 0) && (Shl(v, n) < 0 <==> v < 0)
  {
    ShlPow2(n);
    if v > 0 { ShlMono(1, v, n); } else if v < 0 { ShlMono(v, -1, n); }
  }

  lemma PointNonzero(v: int, al: nat)
    ensures Point(v, al) == 0 <==> Mag(v, al) == 0
    ensures Mag(v, al) > 0 ==> (Point(v, al) > 0 <==> v > 0)
  {
    ShlSign(Signed(v, al), al);
    ShrZero(Abs(v), al);
  }

  /** Bit al of a coefficient as a two's complement number: (*thiscoef & p1) != 0. */
  predicate BitSet(c: int, al: nat) { Shr(c, al) % 2 == 1 }

  /** Appending a correction bit: bump the magnitude at bit al unless it is already there. */
  function Bump(c: int, al: nat): int {
    if BitSet(c, al) then c else if c >= 0 then c + Shl(1, al) else c + Shl(-1, al)
  }

  lemma BumpUp(h: int, al: nat)
    requires h != 0
    ensures Bump(Shl(2 * h, al), al) == Shl(if h >= 0 then 2 * h + 1 else 2 * h - 1, al)
    ensures Bump(Shl(if h >= 0 then 2 * h + 1 else 2 * h - 1, al), al) == Shl(if h >= 0 then 2 * h + 1 else 2 * h - 1, al)
  {
    hide Shr, Shl;
    var s := if h >= 0 then 1 else -1;
    ShlAdd(2 * h, s, al);
    ShlSign(2 * h, al);
    JoinAt(2 * h, 0, al);
    JoinAt(2 * h + s, 0, al);
  }

  /** One more bit of precision for a coefficient that was already nonzero; appending the same bit
      again changes nothing. */
  lemma CorrectionBit(v: int, al: nat)
    requires Mag(v, al) > 1
    ensures Point(v, al + 1) != 0
    ensures Point(v, al) == if Mag(v, al) % 2 == 1 then Bump(Point(v, al + 1), al) else Point(v, al + 1)
    ensures Mag(v, al) % 2 == 1 ==> Bump(Point(v, al), al) == Point(v, al)
  {
    hide Shl, Mag, Bump;
    MagHalf(v, al);
    PointNonzero(v, al + 1);
    ShlInner(Signed(v, al + 1), al);
    BumpUp(Signed(v, al + 1), al);
    assert Shl(Signed(v, al + 1), al + 1) == Shl(2 * Signed(v, al + 1), al) by { ShlShl(Signed(v, al + 1), 1, al); ShlOne(Signed(v, al + 1)); }
  }

  lemma ShlOne(v: int)
    ensures Shl(v, 1) == 2 * v
  {
    ShiftNone(v);
  }

  /** A coefficient that becomes nonzero at bit al. */
  lemma NewlyNonzero(v: int, al: nat)
    requires Mag(v, al) == 1
    ensures Point(v, al + 1) == 0 && Point(v, al) == if v >= 0 then Shl(1, al) else Shl(-1, al)
  {
    MagHalf(v, al);
    PointNonzero(v, al + 1);
  }

  lemma StillZero(v: int, al: nat)
    requires Mag(v, al) == 0
    ensures Point(v, al + 1) == 0 == Point(v, al)
  {
    MagHalf(v, al);
    PointNonzero(v, al + 1);
    PointNonzero(v, al);
  }
}
