// How far a coefficient that has been sent down to some bit may be from the original.
module Precision {
  import opened Bits
  import opened Coefficients
  import opened ScanScript

  ghost predicate Multiple(w: int, d: nat) {
    exists q: int :: w == q * d
  }

  /** w is v to the next multiple of 2^p, below for DC and toward zero for AC; 0 if nothing has been sent. */
  ghost predicate Near(k: nat, p: int, v: int, w: int) {
    if p < 0 then w == 0
    else
      && Multiple(w, Pow2(p)) && (p == 0 ==> w == v)
      && if k == 0 then w <= v < w + Pow2(p)
         else Abs(w) <= Abs(v) < Abs(w) + Pow2(p) && (w > 0 ==> v > 0) && (w < 0 ==> v < 0)
  }

  lemma MultipleOf(q: int, d: nat)
    ensures Multiple(q * d, d)
  {
  }

  lemma DcNear(p: nat, v: int)
    ensures Near(0, p, v, Shl(Shr(v, p), p))
  {
    hide Shr, Shl, Low, Pow2, Multiple;
    SplitAt(v, p);
    ShlTimes(Shr(v, p), p);
    MultipleOf(Shr(v, p), Pow2(p));
    if p == 0 { Unshifted(v, p); }
  }

  lemma Unshifted(v: int, p: nat)
    requires p == 0
    ensures Shr(v, p) == v && Shl(v, p) == v && Point(v, p) == v
  {
    ShiftNone(v);
    PointZero(v);
  }

  lemma AcNear(k: nat, p: nat, v: int)
    requires k > 0
    ensures Near(k, p, v, Point(v, p))
  {
    hide Shr, Shl, Low, Pow2, Multiple;
    var m := Mag(v, p);
    SplitAt(Abs(v), p);
    ShlTimes(m, p);
    ShlTimes(Signed(v, p), p);
    MultipleOf(Signed(v, p), Pow2(p));
    Opposite(m, Pow2(p));
    PointNonzero(v, p);
    if p == 0 { Unshifted(v, p); }
  }

  lemma Opposite(m: nat, d: nat)
    ensures (0 - m) * d == 0 - m * d && m * d >= 0
  {
  }

  lemma ReachedNear(k: nat, p: int, v: int, w: int)
    requires Reached(k, p, v, w)
    ensures Near(k, p, v, w)
  {
    hide Shr, Shl, Point, Multiple, Pow2;
    if p >= 0 {
      if k == 0 { DcNear(p, v); } else { AcNear(k, p, v); }
    }
  }

  /** After the scans of a script every coefficient is that near to the original, by the last scan that sent it. */
  lemma ImageNear(orig: Image, scans: seq<Scan>)
    requires Run(|orig|, scans).Some?
    ensures forall ci, b, k :: 0 <= ci < |orig| && 0 <= b < |orig[ci]| && 0 <= k < 64 ==>
      Near(k, LastAl(scans, ci, k), orig[ci][b][k], Achieved(orig, scans)[ci][b][k])
  {
    hide Run, Achieved, Near, LastAl, Reached;
    PrecisionReached(orig, scans);
    RunHistory(|orig|, scans);
    var bits, dec := Run(|orig|, scans).value, Achieved(orig, scans);
    forall ci, b, k | 0 <= ci < |orig| && 0 <= b < |orig[ci]| && 0 <= k < 64
      ensures Near(k, LastAl(scans, ci, k), orig[ci][b][k], dec[ci][b][k])
    {
      assert BlockReached(bits[ci], orig[ci][b], dec[ci][b]);
      ReachedNear(k, bits[ci][k], orig[ci][b][k], dec[ci][b][k]);
    }
  }
}
