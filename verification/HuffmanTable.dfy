// Canonical Huffman tables (ITU-T T.81, Annex C): the code a DHT specification denotes,
// the bit-serial decoder of figure F.16, and why the two fit together.
module HuffmanTable {
  import opened Wrappers
  import opened Bits

  /** JHUFF_TBL: bits[l] codes of length l, and the symbols in order of code length. */
  datatype Table = Table(bits: seq<nat>, huffval: seq<nat>)

  /** What the C types guarantee. */
  predicate WellTyped(h: Table) {
    && |h.bits| == 17 && (forall l :: 0 <= l < 17 ==> h.bits[l] <= 255)
    && |h.huffval| == 256 && (forall p :: 0 <= p < 256 ==> h.huffval[p] <= 255)
  }

  /** Number of codes shorter than l. */
  function Before(h: Table, l: nat): nat
    requires |h.bits| == 17 && l <= 17
  {
    if l <= 1 then 0 else Before(h, l - 1) + h.bits[l - 1]
  }

  function Count(h: Table): nat
    requires |h.bits| == 17
  {
    Before(h, 17)
  }

  /** The smallest number that can start a code of length l (figure C.2). */
  function First(h: Table, l: nat): nat
    requires |h.bits| == 17 && l <= 17
  {
    if l <= 1 then 0 else 2 * (First(h, l - 1) + h.bits[l - 1])
  }

  /** One more than the last code of length l. */
  function Limit(h: Table, l: nat): nat
    requires |h.bits| == 17 && 1 <= l <= 16
  {
    First(h, l) + h.bits[l]
  }

  /** A legal code: no overrun of the symbol list, and at every length the all-ones code is free. */
  predicate Legal(h: Table) {
    && WellTyped(h)
    && Count(h) <= 256
    && forall l {:trigger Limit(h, l)} :: 1 <= l <= 16 ==> Limit(h, l) < Pow2(l)
  }

  lemma BeforeMono(h: Table, l: nat, m: nat)
    requires |h.bits| == 17 && l <= m <= 17
    ensures Before(h, l) <= Before(h, m)
    decreases m
  {
    if l < m { BeforeMono(h, l, m - 1); }
  }

  /** Length of the q-th code. */
  function LenAt(h: Table, q: nat): (l: nat)
    requires |h.bits| == 17 && q < Count(h)
    ensures 1 <= l <= 16 && Before(h, l) <= q < Before(h, l + 1)
  {
    LenFrom(h, q, 1)
  }

  function LenFrom(h: Table, q: nat, m: nat): (l: nat)
    requires |h.bits| == 17 && 1 <= m <= 16 && Before(h, m) <= q < Count(h)
    ensures 1 <= l <= 16 && Before(h, l) <= q < Before(h, l + 1)
    decreases 16 - m
  {
    if q < Before(h, m + 1) then m else LenFrom(h, q, m + 1)
  }

  lemma LenAtIs(h: Table, q: nat, l: nat)
    requires |h.bits| == 17 && q < Count(h) && 1 <= l <= 16 && Before(h, l) <= q < Before(h, l + 1)
    ensures LenAt(h, q) == l
  {
    var m := LenAt(h, q);
    if m < l { BeforeMono(h, m + 1, l); }
    if l < m { BeforeMono(h, l + 1, m); }
  }

  /** The q-th code as a number, and as the bits that are sent. */
  function CodeAt(h: Table, q: nat): (c: nat)
    requires |h.bits| == 17 && q < Count(h)
    ensures First(h, LenAt(h, q)) <= c < Limit(h, LenAt(h, q))
  {
    First(h, LenAt(h, q)) + (q - Before(h, LenAt(h, q)))
  }

  function CodeBits(h: Table, q: nat): seq<bool>
    requires |h.bits| == 17 && q < Count(h)
  {
    Bin(CodeAt(h, q), LenAt(h, q))
  }

  /** maxcode[] of figure F.15, with the sentinel in entry 17. */
  function MaxCode(h: Table, l: nat): int
    requires |h.bits| == 17 && 1 <= l <= 17
  {
    if l == 17 then 0xFFFFF else if h.bits[l] == 0 then -1 else Limit(h, l) - 1
  }

  function Bit(b: bool): nat { if b then 1 else 0 }

  /** Figure F.16 with `code` read as the first l bits and `rest` still to come: the symbol and the
      unread bits, None if the bits run out.  A string that is no code stops at the sentinel, and
      zero is faked. */
  function SerialAt(h: Table, code: nat, l: nat, rest: seq<bool>): (r: Option<(nat, seq<bool>)>)
    requires Legal(h) && 1 <= l <= 17 && First(h, l) <= code
    ensures r.Some? ==> r.value.0 <= 255 && |r.value.1| <= |rest|
    decreases 17 - l
  {
    if l < 17 && code > MaxCode(h, l) then
      if rest == [] then None else SerialAt(h, 2 * code + Bit(rest[0]), l + 1, rest[1..])
    else
      Some((SymbolAt(h, code, l), rest))
  }

  function SymbolAt(h: Table, code: nat, l: nat): (s: nat)
    requires Legal(h) && 1 <= l <= 17 && First(h, l) <= code && (l == 17 || code <= MaxCode(h, l))
    ensures s <= 255
  {
    if l == 17 then 0
    else
      BeforeMono(h, l + 1, 17);
      h.huffval[Before(h, l) + code - First(h, l)]
  }

  lemma SymbolIndex(h: Table, code: nat, l: nat)
    requires Legal(h) && 1 <= l <= 16 && First(h, l) <= code <= MaxCode(h, l)
    ensures h.bits[l] > 0 && 0 <= Before(h, l) + code - First(h, l) < 256 == |h.huffval|
    ensures SymbolAt(h, code, l) == h.huffval[Before(h, l) + code - First(h, l)]
  {
    hide Pow2, First;
    BeforeMono(h, l + 1, 17);
  }

  /** One trip of the loop of figure F.16. */
  lemma SerialStep(h: Table, code: nat, l: nat, rest: seq<bool>)
    requires Legal(h) && 1 <= l <= 17 && First(h, l) <= code
    ensures SerialAt(h, code, l, rest).None? ==> l < 17 && code > MaxCode(h, l)
    ensures l < 17 && code > MaxCode(h, l) ==>
      First(h, l + 1) <= 2 * code
      && SerialAt(h, code, l, rest) == if rest == [] then None else SerialAt(h, 2 * code + Bit(rest[0]), l + 1, rest[1..])
    ensures l == 17 || code <= MaxCode(h, l) ==> SerialAt(h, code, l, rest) == Some((SymbolAt(h, code, l), rest))
  {
  }

  function Serial(h: Table, b: seq<bool>): (r: Option<(nat, seq<bool>)>)
    requires Legal(h)
    ensures r.Some? ==> r.value.0 <= 255 && |r.value.1| < |b|
  {
    if b == [] then None else SerialAt(h, Bit(b[0]), 1, b[1..])
  }

  /** A symbol of the table, or the zero that stands for a bad code. */
  ghost predicate Possible(h: Table, s: nat)
    requires Legal(h)
  {
    s == 0 || exists p :: 0 <= p < Count(h) && h.huffval[p] == s
  }

  lemma SymbolPossible(h: Table, code: nat, l: nat)
    requires Legal(h) && 1 <= l <= 17 && First(h, l) <= code && (l == 17 || code <= MaxCode(h, l))
    ensures Possible(h, SymbolAt(h, code, l))
  {
    hide Pow2, First;
    if l < 17 {
      SymbolIndex(h, code, l);
      BeforeMono(h, l + 1, 17);
      assert Before(h, l) + code - First(h, l) < Count(h);
    }
  }

  lemma {:induction false} SerialAtPossible(h: Table, code: nat, l: nat, rest: seq<bool>)
    requires Legal(h) && 1 <= l <= 17 && First(h, l) <= code && SerialAt(h, code, l, rest).Some?
    ensures Possible(h, SerialAt(h, code, l, rest).value.0)
    decreases 17 - l
  {
    hide SerialAt, MaxCode, SymbolAt, Possible;
    SerialStep(h, code, l, rest);
    if l < 17 && code > MaxCode(h, l) {
      SerialAtPossible(h, 2 * code + Bit(rest[0]), l + 1, rest[1..]);
    } else {
      SymbolPossible(h, code, l);
    }
  }

  /** Bits after the decoded symbol make no difference. */
  lemma {:induction false} SerialAtExtends(h: Table, code: nat, l: nat, rest: seq<bool>, t: seq<bool>)
    requires Legal(h) && 1 <= l <= 17 && First(h, l) <= code && SerialAt(h, code, l, rest).Some?
    ensures SerialAt(h, code, l, rest + t) ==
      Some((SerialAt(h, code, l, rest).value.0, SerialAt(h, code, l, rest).value.1 + t))
    decreases 17 - l
  {
    hide SerialAt, MaxCode, SymbolAt;
    SerialStep(h, code, l, rest);
    SerialStep(h, code, l, rest + t);
    if l < 17 && code > MaxCode(h, l) {
      assert (rest + t)[1..] == rest[1..] + t;
      SerialAtExtends(h, 2 * code + Bit(rest[0]), l + 1, rest[1..], t);
    }
  }

  lemma SerialExtends(h: Table, b: seq<bool>, t: seq<bool>)
    requires Legal(h) && Serial(h, b).Some?
    ensures Serial(h, b + t) == Some((Serial(h, b).value.0, Serial(h, b).value.1 + t))
  {
    assert (b + t)[1..] == b[1..] + t;
    SerialAtExtends(h, Bit(b[0]), 1, b[1..], t);
  }

  /** What is left unread is the end of what was there. */
  lemma {:induction false} SerialAtSuffix(h: Table, code: nat, l: nat, rest: seq<bool>)
    requires Legal(h) && 1 <= l <= 17 && First(h, l) <= code && SerialAt(h, code, l, rest).Some?
    ensures SerialAt(h, code, l, rest).value.1 == rest[|rest| - |SerialAt(h, code, l, rest).value.1|..]
    decreases 17 - l
  {
    hide SerialAt, MaxCode, SymbolAt;
    SerialStep(h, code, l, rest);
    if l < 17 && code > MaxCode(h, l) {
      SerialAtSuffix(h, 2 * code + Bit(rest[0]), l + 1, rest[1..]);
    }
  }

  /** The first of k low bits, read onto the bits above it. */
  lemma BinHead(v: nat, k: nat, t: seq<bool>)
    requires k >= 1
    ensures Shr(v, k) >= 0 && Shr(v, k - 1) == 2 * Shr(v, k) + Bit((Bin(v, k) + t)[0])
    ensures (Bin(v, k) + t)[1..] == Bin(v, k - 1) + t
  {
    BinSplit(v, 1, k - 1);
    ShrLast(v, k - 1);
    ShrZero(v, k);
    ShrZero(v, k - 1);
    assert Bin(Shr(v, k - 1), 1) == [Shr(v, k - 1) % 2 == 1] by {
      assert Bin(Shr(v, k - 1) / 2, 0) == [];
    }
    assert Bin(v, k) + t == [Shr(v, k - 1) % 2 == 1] + (Bin(v, k - 1) + t);
  }

  /** The first m bits of a code of length l > m lie above every code of length m. */
  lemma {:induction false} PrefixAbove(h: Table, c: nat, l: nat, m: nat)
    requires |h.bits| == 17 && 1 <= m < l <= 17 && First(h, l) <= c
    ensures First(h, m) <= Limit(h, m) <= Shr(c, l - m)
    decreases l
  {
    ShrShr(c, 1, l - m - 1);
    assert Shr(c, 1) == c / 2;
    if m + 1 < l { PrefixAbove(h, c / 2, l - 1, m); }
  }

  /** Decoding from length m inside a code of length l finds that code. */
  lemma {:induction false} SerialFinds(h: Table, l: nat, c: nat, t: seq<bool>, m: nat)
    requires Legal(h) && 1 <= m <= l <= 16 && First(h, l) <= c < Limit(h, l)
    ensures Before(h, l) + c - First(h, l) < 256 && First(h, m) <= Shr(c, l - m)
    ensures SerialAt(h, Shr(c, l - m), m, Bin(c, l - m) + t) == Some((h.huffval[Before(h, l) + c - First(h, l)], t))
    decreases l - m
  {
    hide Bin, Shr, SerialAt;
    ShiftNone(c);
    BeforeMono(h, l + 1, 17);
    if m < l { PrefixAbove(h, c, l, m); }
    SerialStep(h, Shr(c, l - m), m, Bin(c, l - m) + t);
    if m < l {
      BinHead(c, l - m, t);
      SerialFinds(h, l, c, t, m + 1);
    } else {
      assert [] + t == t;
    }
  }

  /** Starting to read n bits is having their first bit as the code so far. */
  lemma SerialStart(h: Table, v: nat, n: nat, t: seq<bool>)
    requires Legal(h) && n >= 1 && v < Pow2(n)
    ensures 0 <= Shr(v, n - 1) && Serial(h, Bin(v, n) + t) == SerialAt(h, Shr(v, n - 1), 1, Bin(v, n - 1) + t)
  {
    BinHead(v, n, t);
    ShrZero(v, n);
  }

  /** The decoder of figure F.16 inverts the encoder's table, whatever follows the code. */
  lemma SerialDecodesCode(h: Table, q: nat, t: seq<bool>)
    requires Legal(h) && q < Count(h)
    ensures Serial(h, CodeBits(h, q) + t) == Some((h.huffval[q], t))
  {
    hide SerialAt, Serial, Bin, Shr, First, Before;
    SerialFinds(h, LenAt(h, q), CodeAt(h, q), t, 1);
    SerialStart(h, CodeAt(h, q), LenAt(h, q), t);
  }

  /** If n bits hold no code, decoding goes on from them as the code so far. */
  lemma {:induction false} SerialMisses(h: Table, v: nat, n: nat, t: seq<bool>, m: nat)
    requires Legal(h) && 1 <= m <= n <= 16 && 0 <= First(h, m) <= Shr(v, n - m)
    requires SerialAt(h, Shr(v, n - m), m, Bin(v, n - m)).None?
    ensures First(h, n + 1) <= 2 * v
    ensures SerialAt(h, Shr(v, n - m), m, Bin(v, n - m) + t) ==
      if t == [] then None else SerialAt(h, 2 * v + Bit(t[0]), n + 1, t[1..])
    decreases n - m
  {
    hide Bin, Shr, SerialAt, MaxCode, Limit;
    ShiftNone(v);
    SerialStep(h, Shr(v, n - m), m, Bin(v, n - m));
    SerialStep(h, Shr(v, n - m), m, Bin(v, n - m) + t);
    if m < n {
      BinHead(v, n - m, t);
      BinHead(v, n - m, []);
      assert Bin(v, n - m) + [] == Bin(v, n - m);
      assert Bin(v, n - m - 1) + [] == Bin(v, n - m - 1);
      SerialMisses(h, v, n, t, m + 1);
    } else {
      assert [] + t == t;
    }
  }

  /** No code is a prefix of another (section C.2). */
  lemma PrefixFree(h: Table, q: nat, q': nat, t: seq<bool>)
    requires Legal(h) && q < Count(h) && q' < Count(h)
    requires CodeBits(h, q) + t == CodeBits(h, q')
    ensures q == q' && t == []
  {
    SerialDecodesCode(h, q, t);
    SerialDecodesCode(h, q', []);
    assert CodeBits(h, q') + [] == CodeBits(h, q');
    assert CodeBits(h, q) + [] == CodeBits(h, q);
    BinInjective(CodeAt(h, q), CodeAt(h, q'), LenAt(h, q));
  }

  lemma BinInjective(v: nat, w: nat, n: nat)
    requires v < Pow2(n) && w < Pow2(n) && Bin(v, n) == Bin(w, n)
    ensures v == w
  {
    LowSmall(v, n);
    LowSmall(w, n);
    ValBin(v, n);
    ValBin(w, n);
  }

  lemma {:induction false} ValOnes(b: seq<bool>)
    requires forall i :: 0 <= i < |b| ==> b[i]
    ensures Val(b) == Pow2(|b|) - 1
  {
    if b != [] { ValOnes(b[..|b| - 1]); }
  }

  /** No code is all ones, so padding cannot look like one (section F.1.2.3). */
  lemma NeverAllOnes(h: Table, q: nat)
    requires Legal(h) && q < Count(h)
    ensures exists i :: 0 <= i < LenAt(h, q) && !CodeBits(h, q)[i]
  {
    var l := LenAt(h, q);
    LowSmall(CodeAt(h, q), l);
    ValBin(CodeAt(h, q), l);
    if forall i :: 0 <= i < l ==> CodeBits(h, q)[i] { ValOnes(CodeBits(h, q)); }
  }

  lemma {:induction false} FirstLater(h: Table, l: nat, m: nat)
    requires |h.bits| == 17 && 1 <= l < m <= 17 && Before(h, l + 1) == Before(h, m)
    ensures First(h, m) == Shl(Limit(h, l), m - l)
    decreases m
  {
    if l + 1 < m {
      BeforeMono(h, l + 1, m - 1);
      FirstLater(h, l, m - 1);
    } else {
      ShiftNone(Limit(h, l));
    }
  }

  /** The codes count up from all zeros: the next one is the next number, with zeros appended if it is
      longer (section C.2). */
  lemma Canonical(h: Table, q: nat)
    requires |h.bits| == 17 && q < Count(h)
    ensures q == 0 ==> CodeAt(h, q) == 0
    ensures q + 1 < Count(h) ==>
      LenAt(h, q) <= LenAt(h, q + 1) && CodeAt(h, q + 1) == Shl(CodeAt(h, q) + 1, LenAt(h, q + 1) - LenAt(h, q))
  {
    hide First, Before;
    if q == 0 { FirstCode(h, LenAt(h, 0)); }
    if q + 1 < Count(h) {
      var l, m := LenAt(h, q), LenAt(h, q + 1);
      if m < l { BeforeMono(h, m + 1, l); }
      if l < m {
        BeforeMono(h, l + 1, m);
        LastOfLength(h, l);
        FirstLater(h, l, m);
      } else {
        ShiftNone(CodeAt(h, q) + 1);
      }
    }
  }

  lemma LastOfLength(h: Table, l: nat)
    requires |h.bits| == 17 && 1 <= l <= 16
    ensures Before(h, l + 1) == Before(h, l) + h.bits[l]
  {
  }

  lemma {:induction false} FirstCode(h: Table, l: nat)
    requires |h.bits| == 17 && 1 <= l <= 17 && Before(h, l) == 0
    ensures First(h, l) == 0
    decreases l
  {
    if l > 1 { FirstCode(h, l - 1); }
  }
}
