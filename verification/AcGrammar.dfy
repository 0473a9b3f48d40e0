// What a progressive AC scan sends, read off the coefficients (sections G.1.2.2 and G.1.2.3 of T.81):
// a word per newly nonzero coefficient and per sixteen zeros before it, and one word per run of bands
// that end in nothing new.  Nothing here knows of the encoder's counters; the lemmas tie them to it.
module AcGrammar {
  import opened Bits
  import opened HuffmanTable
  import opened Coefficients
  import opened AcBlocks
  import opened AcScan
  import opened Sequences

  // ---------- coefficients ----------

  /** Rounded down. */
  function Quotient(n: int, d: nat): (q: int)
    requires d > 0
    ensures n >= 0 ==> q >= 0
  {
    n / d
  }

  /** |v| / 2^al */
  function Scaled(v: int, al: nat): nat { Quotient(Abs(v), Pow2(al)) }

  /** This scan makes the coefficient nonzero. */
  predicate Coded(p: Params, v: int) {
    if p.kind.Refine? then Scaled(v, p.al) == 1 else Scaled(v, p.al) > 0
  }

  /** The bit a refinement scan adds to a coefficient that was nonzero before. */
  function Correction(p: Params, v: int): seq<bool> {
    if p.kind.Refine? && Scaled(v, p.al) > 1 then [Scaled(v, p.al) % 2 == 1] else []
  }

  /** The corrections of coefficients i up to j. */
  function Corrections(p: Params, z: Block, i: nat, j: nat): (b: seq<bool>)
    requires i <= j <= 64
    ensures |b| <= j - i
    decreases j
  {
    if i == j then [] else Corrections(p, z, i, j - 1) + Correction(p, z[j - 1])
  }

  /** No coefficient from k to the end of the band is coded. */
  predicate QuietFrom(p: Params, z: Block, k: nat) {
    forall i :: k <= i <= p.se && i < 64 ==> !Coded(p, z[i])
  }

  predicate Quiet(p: Params, z: Block) { QuietFrom(p, z, p.ss) }

  /** What follows the last coded coefficient of the band. */
  function PastLast(p: Params, z: Block, k: nat): (e: nat)
    requires InBand(p) && p.ss <= k <= p.se + 1
    ensures p.ss <= e <= k
    ensures e > p.ss ==> Coded(p, z[e - 1])
    ensures forall i :: e <= i < k ==> !Coded(p, z[i])
    decreases k
  {
    if k == p.ss || Coded(p, z[k - 1]) then k else PastLast(p, z, k - 1)
  }

  // ---------- words ----------

  /** A symbol, by its run and size, and the bits that follow its code. */
  datatype Word = Word(run: nat, size: nat, extra: seq<bool>) {
    function Sym(): nat { 16 * run + size }
  }

  /** A coded coefficient after r zeros, and the corrections that were passed with them. */
  function CoefWord(p: Params, v: int, r: nat, br: seq<bool>): Word {
    var m := Scaled(v, p.al);
    if p.kind.Refine? then Word(r, 1, [v > 0] + br)
    else Word(r, NBits(m), Bin(if v > 0 then m else Pow2(NBits(m)) - 1 - m, NBits(m)) + br)
  }

  /** The words of a band from coefficient k on, with r zeros and the corrections br behind us. */
  ghost function Words(p: Params, z: Block, k: nat, r: nat, br: seq<bool>): seq<Word>
    requires InBand(p)
    decreases 64 - k
  {
    if QuietFrom(p, z, k) then []
    else if Coded(p, z[k]) then [CoefWord(p, z[k], r, br)] + Words(p, z, k + 1, 0, [])
    else if Scaled(z[k], p.al) > 0 then Words(p, z, k + 1, r, br + Correction(p, z[k]))
    else if r == 15 then [Word(15, 0, br)] + Words(p, z, k + 1, 0, [])
    else Words(p, z, k + 1, r + 1, br)
  }

  /** The highest one bit. */
  function Log2(n: nat): (e: nat)
    requires n > 0
    ensures Pow2(e) <= n < 2 * Pow2(e)
  {
    if n == 1 then 0 else 1 + Log2(n / 2)
  }

  /** A run of n bands without more to send: its length without the leading one, and the corrections
      of all of them. */
  function RunWords(n: nat, be: seq<bool>): seq<Word> {
    if n == 0 then [] else [Word(Log2(n), 0, Bin(n, Log2(n)) + be)]
  }

  ghost function Spell(h: Table, ws: seq<Word>): seq<bool>
    requires Legal(h)
  {
    if ws == [] then [] else SymBits(h, ws[0].Sym()) + ws[0].extra + Spell(h, ws[1..])
  }

  ghost predicate Sendable(h: Table, ws: seq<Word>)
    requires Legal(h)
  {
    forall i :: 0 <= i < |ws| ==> Listed(h, ws[i].Sym()) && ws[i].size <= 10
  }

  lemma SpellFirst(h: Table, w: Word, ws: seq<Word>)
    requires Legal(h)
    ensures Spell(h, [w] + ws) == SymBits(h, w.Sym()) + (w.extra + Spell(h, ws))
    ensures Sendable(h, [w] + ws) <==> Listed(h, w.Sym()) && w.size <= 10 && Sendable(h, ws)
  {
    hide Legal, Listed, SymBits;
    var all := [w] + ws;
    assert all[0] == w && all[1..] == ws;
    assert forall i :: 0 <= i < |ws| ==> all[i + 1] == ws[i];
    assert forall i :: 0 < i < |all| ==> all[i] == ws[i - 1];
  }

  lemma SpellOne(h: Table, w: Word)
    requires Legal(h)
    ensures Spell(h, [w]) == SymBits(h, w.Sym()) + w.extra && (Sendable(h, [w]) <==> Listed(h, w.Sym()) && w.size <= 10)
  {
    hide Legal, Listed, SymBits;
    SpellFirst(h, w, []);
    assert [w] + [] == [w] && w.extra + [] == w.extra;
  }

  // ---------- shifting is dividing ----------

  lemma ShrQuotient(v: int, n: nat)
    ensures Shr(v, n) == Quotient(v, Pow2(n))
  {
    hide Shl, Shr, Low, Quotient;
    SplitAt(v, n);
    ShlTimes(Shr(v, n), n);
    QuotientIs(Shr(v, n), Low(v, n), Pow2(n));
  }

  lemma MagScaled(v: int, al: nat)
    ensures Mag(v, al) == Scaled(v, al)
  {
    ShrQuotient(Abs(v), al);
  }

  lemma TimesAtLeast(k: int, d: nat)
    ensures (k >= 1 ==> k * d >= d) && (k <= -1 ==> k * d <= 0 - d)
  {
  }

  lemma QuotientIs(q: int, r: nat, d: nat)
    requires r < d
    ensures Quotient(q * d + r, d) == q
  {
    var x := q * d + r;
    var k := x / d - q;
    assert k * d == r - x % d by {
      assert x == d * (x / d) + x % d;
      assert k * d == (x / d) * d - q * d;
    }
    TimesAtLeast(k, d);
  }

  /** The value bits of a negative coefficient are those of its ones' complement. */
  lemma ValueBits(v: int, al: nat)
    requires Mag(v, al) > 0
    ensures var n := NBits(Mag(v, al));
      Bin(Complement(Signed(v, al)), n) == Bin(if v > 0 then Mag(v, al) else Pow2(n) - 1 - Mag(v, al), n)
  {
    hide Shr, Shl, Low, Bin, Mag, NBits;
    var m, n := Mag(v, al), NBits(Mag(v, al));
    if v < 0 {
      ShlPow2(n);
      JoinAt(-1, Pow2(n) - 1 - m, n);
      BinLow(-1 - m as int, n, n);
    } else if v == 0 {
      ShrZero(0, al);
      MagNone(al);
    }
  }

  lemma MagNone(al: nat)
    ensures Mag(0, al) == 0
  {
    ShrZero(0, al);
  }

  // ---------- one block ----------

  /** The run-length-16 codes that the encoder still owes for the zeros it has counted. */
  ghost function Owed(h: Table, l: Local): seq<bool>
    requires Legal(h)
  {
    if l.r > 15 then SymBits(h, ZRL) + (l.br + ZrlBits(h, l.r - 16)) else []
  }

  lemma {:induction false} ZrlMore(h: Table, r: nat)
    requires Legal(h)
    ensures ZrlBits(h, r + 1) == ZrlBits(h, r) + (if r % 16 == 15 then SymBits(h, ZRL) else [])
  {
    hide Legal, Listed, SymBits;
    if r > 15 {
      ZrlMore(h, r - 16);
      var x := if r % 16 == 15 then SymBits(h, ZRL) else [];
      assert SymBits(h, ZRL) + (ZrlBits(h, r - 16) + x) == SymBits(h, ZRL) + ZrlBits(h, r - 16) + x;
    }
  }

  lemma OwedMore(h: Table, l: Local)
    requires Legal(h)
    ensures Owed(h, l.(r := l.r + 1)) ==
      Owed(h, l) + (if l.r % 16 == 15 then SymBits(h, ZRL) + (if l.r > 15 then [] else l.br) else [])
  {
    hide Legal, Listed, SymBits;
    if l.r > 15 {
      ZrlMore(h, l.r - 16);
      var x := if l.r % 16 == 15 then SymBits(h, ZRL) else [];
      assert SymBits(h, ZRL) + (l.br + (ZrlBits(h, l.r - 16) + x)) == SymBits(h, ZRL) + (l.br + ZrlBits(h, l.r - 16)) + x;
    }
  }

  /** What the encoder has sent before coefficient k, what it owes, and the words still to come make
      the words of the block. */
  ghost predicate Agrees(h: Table, p: Params, z: Block, l: Local, k: nat)
    requires Legal(h) && AcScan.Valid(p)
  {
    var all := Words(p, z, p.ss, 0, []);
    if QuietFrom(p, z, k) then
      Spell(h, all) == l.c && (Sendable(h, all) <==> l.ok)
    else
      var rest := Words(p, z, k, l.r % 16, if l.r > 15 then [] else l.br);
      && Spell(h, all) == l.c + (Owed(h, l) + Spell(h, rest))
      && (Sendable(h, all) <==> l.ok && (l.r > 15 ==> Listed(h, ZRL)) && Sendable(h, rest))
  }

  lemma AgreesZero(h: Table, p: Params, z: Block, l: Local, k: nat)
    requires Legal(h) && AcScan.Valid(p) && p.ss <= k <= p.se && Agrees(h, p, z, l, k)
    requires Scaled(z[k], p.al) == 0
    ensures Agrees(h, p, z, l.(r := l.r + 1), k + 1)
  {
    hide Legal, Listed, SymBits, Spell, Sendable, Owed, Scaled, NBits, Bin;
    assert QuietFrom(p, z, k) <==> QuietFrom(p, z, k + 1);
    if !QuietFrom(p, z, k) {
      var br := if l.r > 15 then [] else l.br;
      OwedMore(h, l);
      var rest := Words(p, z, k + 1, (l.r + 1) % 16, if l.r + 1 > 15 then [] else l.br);
      assert (l.r + 1) % 16 == if l.r % 16 == 15 then 0 else l.r % 16 + 1;
      if l.r % 16 == 15 {
        assert Words(p, z, k, 15, br) == [Word(15, 0, br)] + rest;
        SpellFirst(h, Word(15, 0, br), rest);
        var s := SymBits(h, ZRL);
        assert Owed(h, l) + (s + (br + Spell(h, rest))) == Owed(h, l) + (s + br) + Spell(h, rest);
      } else {
        assert Words(p, z, k, l.r % 16, br) == rest;
        assert Owed(h, l) + [] == Owed(h, l);
      }
    }
  }

  /** The encoder's catching up. */
  ghost function Caught(h: Table, l: Local): Local
    requires Legal(h)
  {
    if l.r > 15 then Local(l.c + Owed(h, l), l.ok && Listed(h, ZRL), true, l.r % 16, []) else l
  }

  lemma AgreesCaught(h: Table, p: Params, z: Block, l: Local, k: nat)
    requires Legal(h) && AcScan.Valid(p) && Agrees(h, p, z, l, k) && !QuietFrom(p, z, k)
    ensures Agrees(h, p, z, Caught(h, l), k) && Caught(h, l).r <= 15
  {
    hide Legal, Listed, SymBits, Spell, Sendable, Words, ZrlBits;
    var rest := Words(p, z, k, l.r % 16, if l.r > 15 then [] else l.br);
    assert l.c + (Owed(h, l) + Spell(h, rest)) == l.c + Owed(h, l) + ([] + Spell(h, rest));
  }

  lemma AgreesCoded(h: Table, p: Params, z: Block, l: Local, k: nat)
    requires Legal(h) && AcScan.Valid(p) && p.ss <= k <= p.se && Agrees(h, p, z, l, k) && l.r <= 15
    requires Coded(p, z[k])
    ensures var w := CoefWord(p, z[k], l.r, l.br);
      Agrees(h, p, z, Local(l.c + (SymBits(h, w.Sym()) + w.extra), l.ok && Listed(h, w.Sym()) && w.size <= 10, true, 0, []), k + 1)
  {
    hide Legal, Listed, SymBits, Spell, Sendable, Scaled, NBits, Bin, CoefWord, Coded;
    var w, rest := CoefWord(p, z[k], l.r, l.br), Words(p, z, k + 1, 0, []);
    assert !QuietFrom(p, z, k);
    SpellFirst(h, w, rest);
    var s := SymBits(h, w.Sym());
    assert l.c + ([] + (s + (w.extra + Spell(h, rest)))) == l.c + (s + w.extra) + ([] + Spell(h, rest));
    if QuietFrom(p, z, k + 1) {
      SpellNone(h);
      assert l.c + (s + w.extra) + ([] + []) == l.c + (s + w.extra);
    }
  }

  lemma SpellNone(h: Table)
    requires Legal(h)
    ensures Spell(h, []) == [] && Sendable(h, [])
  {
  }

  lemma AgreesHeld(h: Table, p: Params, z: Block, l: Local, k: nat)
    requires Legal(h) && AcScan.Valid(p) && p.ss <= k <= p.se && Agrees(h, p, z, l, k) && (QuietFrom(p, z, k) || l.r <= 15)
    requires Scaled(z[k], p.al) > 0 && !Coded(p, z[k])
    ensures Agrees(h, p, z, l.(br := l.br + Correction(p, z[k])), k + 1)
  {
    hide Legal, Listed, SymBits, Spell, Sendable, Scaled, NBits, Bin, ZrlBits;
    assert QuietFrom(p, z, k) <==> QuietFrom(p, z, k + 1);
  }

  /** What the bodies of the two coders know of a coefficient. */
  lemma CodedMag(p: Params, v: int)
    ensures Scaled(v, p.al) == Mag(v, p.al)
    ensures Coded(p, v) <==> if p.kind.Refine? then Mag(v, p.al) == 1 else Mag(v, p.al) > 0
    ensures Correction(p, v) == if p.kind.Refine? && Mag(v, p.al) > 1 then [Mag(v, p.al) % 2 == 1] else []
    ensures Mag(v, p.al) > 0 ==> v != 0
  {
    hide Mag, Scaled;
    MagScaled(v, p.al);
    MagNone(p.al);
  }

  lemma FirstAgreesStep(h: Table, p: Params, z: Block, l: Local, k: nat)
    requires Legal(h) && AcScan.Valid(p) && p.kind.Initial? && p.ss <= k <= p.se && Agrees(h, p, z, l, k) && l.br == []
    ensures Agrees(h, p, z, FirstStep(h, l, z[k], p.al), k + 1) && FirstStep(h, l, z[k], p.al).br == []
  {
    hide Legal, Listed, SymBits, Agrees, Scaled, NBits, Bin, Mag, Coded, Complement, Signed, Pow2;
    var v := z[k];
    var m := Mag(v, p.al);
    CodedMag(p, v);
    if m == 0 {
      AgreesZero(h, p, z, l, k);
    } else {
      AgreesCaught(h, p, z, l, k);
      var l1 := Caught(h, l);
      assert l1.c == l.c + ZrlBits(h, l.r) by {
        assert l.c + [] == l.c;
        if l.r > 15 { assert [] + ZrlBits(h, l.r - 16) == ZrlBits(h, l.r - 16); }
      }
      AgreesCoded(h, p, z, l1, k);
      ValueBits(v, p.al);
      var x := Bin(Complement(Signed(v, p.al)), NBits(m));
      assert x + [] == x;
      var s := SymBits(h, 16 * (l.r % 16) + NBits(m));
      assert l.c + ZrlBits(h, l.r) + (s + x) == l.c + (ZrlBits(h, l.r) + (s + x));
    }
  }

  lemma RefineAgreesStep(h: Table, p: Params, z: Block, l: Local, k: nat, eob: nat)
    requires Legal(h) && AcScan.Valid(p) && p.kind.Refine? && p.ss <= k <= p.se && Agrees(h, p, z, l, k)
    requires QuietFrom(p, z, k) <==> eob < k
    ensures Agrees(h, p, z, RefineStep(h, l, z[k], p.al, k, eob), k + 1)
  {
    hide Legal, Listed, SymBits, Agrees, Scaled, NBits, Bin, Mag, Pow2;
    var v := z[k];
    CodedMag(p, v);
    if Mag(v, p.al) == 0 {
      AgreesZero(h, p, z, l, k);
    } else {
      var l1 := RefineZrl(h, l, k, eob);
      if k <= eob {
        AgreesCaught(h, p, z, l, k);
        assert l1 == Caught(h, l);
      }
      if Mag(v, p.al) > 1 {
        AgreesHeld(h, p, z, l1, k);
      } else {
        AgreesCoded(h, p, z, l1, k);
      }
    }
  }

  lemma {:induction false} EobQuiet(p: Params, z: Block, k: nat)
    requires p.kind.Refine? && InBand(p) && p.ss <= k <= p.se + 1
    ensures var eob := EobAt(z, p.al, p.ss, k);
      && (eob == 0 || (p.ss <= eob < k && Coded(p, z[eob])))
      && forall i :: p.ss <= i < k && Coded(p, z[i]) ==> i <= eob
    decreases k
  {
    hide Mag, Scaled;
    if k > p.ss {
      CodedMag(p, z[k - 1]);
      EobQuiet(p, z, k - 1);
    }
  }

  lemma AgreesStart(h: Table, p: Params, z: Block)
    requires Legal(h) && AcScan.Valid(p)
    ensures Agrees(h, p, z, Start, p.ss)
  {
    hide Legal, Spell, Sendable, Coded;
    var all := Words(p, z, p.ss, 0, []);
    assert [] + ([] + Spell(h, all)) == Spell(h, all);
    SpellNone(h);
  }

  lemma {:induction false} FirstAgrees(h: Table, p: Params, z: Block, k: nat)
    requires Legal(h) && AcScan.Valid(p) && p.kind.Initial? && p.ss <= k <= p.se + 1
    ensures Agrees(h, p, z, FirstUpTo(h, z, p.al, p.ss, k), k) && FirstUpTo(h, z, p.al, p.ss, k).br == []
    decreases k
  {
    hide Legal, Agrees, FirstStep;
    if k == p.ss {
      AgreesStart(h, p, z);
    } else {
      FirstAgrees(h, p, z, k - 1);
      FirstAgreesStep(h, p, z, FirstUpTo(h, z, p.al, p.ss, k - 1), k - 1);
    }
  }

  lemma {:induction false} RefineAgrees(h: Table, p: Params, z: Block, k: nat)
    requires Legal(h) && AcScan.Valid(p) && p.kind.Refine? && p.ss <= k <= p.se + 1
    ensures Agrees(h, p, z, RefineUpTo(h, z, p.al, p.ss, EobAt(z, p.al, p.ss, p.se + 1), k), k)
    decreases k
  {
    hide Legal, Agrees, RefineStep, EobAt, Coded;
    var eob := EobAt(z, p.al, p.ss, p.se + 1);
    if k == p.ss {
      AgreesStart(h, p, z);
    } else {
      RefineAgrees(h, p, z, k - 1);
      EobQuiet(p, z, p.se + 1);
      RefineAgreesStep(h, p, z, RefineUpTo(h, z, p.al, p.ss, eob, k - 1), k - 1, eob);
    }
  }

  /** Whether anything is sent, and what is left at the end of a block. */
  ghost predicate Ends(p: Params, z: Block, l: Local, k: nat)
    requires InBand(p) && p.ss <= k <= p.se + 1
  {
    var e := PastLast(p, z, k);
    && (e > p.ss ==> l.any)
    && (l.any ==> !Quiet(p, z))
    && (QuietFrom(p, z, k) ==> l.br == Corrections(p, z, e, k) && ((l.r > 0 || l.br != []) <==> e < k))
  }

  lemma {:induction false} FirstEnds(h: Table, p: Params, z: Block, k: nat)
    requires Legal(h) && AcScan.Valid(p) && p.kind.Initial? && p.ss <= k <= p.se + 1
    ensures Ends(p, z, FirstUpTo(h, z, p.al, p.ss, k), k)
    decreases k
  {
    hide Legal, Listed, SymBits, Scaled, NBits, Bin, Mag, Complement, Signed, ZrlBits, Coded;
    if k > p.ss {
      FirstEnds(h, p, z, k - 1);
      CodedMag(p, z[k - 1]);
      FirstHoldsNothing(h, z, p.al, p.ss, k - 1);
    }
  }

  lemma {:induction false} RefineEnds(h: Table, p: Params, z: Block, k: nat)
    requires Legal(h) && AcScan.Valid(p) && p.kind.Refine? && p.ss <= k <= p.se + 1
    ensures Ends(p, z, RefineUpTo(h, z, p.al, p.ss, EobAt(z, p.al, p.ss, p.se + 1), k), k)
    decreases k
  {
    hide Legal, Listed, SymBits, Scaled, NBits, Bin, Mag, ZrlBits, EobAt, Coded;
    if k > p.ss {
      RefineEnds(h, p, z, k - 1);
      EobQuiet(p, z, p.se + 1);
      CodedMag(p, z[k - 1]);
    }
  }

  /** The encoder sends the words of the block; what it holds back are the corrections after the last
      coded coefficient, and there is an end of band to tell unless the last coefficient is coded. */
  lemma BlockSpelt(h: Table, p: Params, z: Block)
    requires Legal(h) && AcScan.Valid(p)
    ensures var l, ws := BlockCode(h, p, z), Words(p, z, p.ss, 0, []);
      && l.c == Spell(h, ws) && (l.ok <==> Sendable(h, ws))
      && (l.any <==> !Quiet(p, z)) && (Trailing(l) <==> !Coded(p, z[p.se]))
      && l.br == Corrections(p, z, PastLast(p, z, p.se + 1), p.se + 1)
  {
    hide Legal, Coded, Sendable, Spell, Words, FirstUpTo, RefineUpTo, EobAt, Corrections;
    var k := p.se + 1;
    if p.kind.Refine? {
      RefineAgrees(h, p, z, k);
      RefineEnds(h, p, z, k);
    } else {
      FirstAgrees(h, p, z, k);
      FirstEnds(h, p, z, k);
    }
  }

  // ---------- runs of bands ----------

  /** What a block leaves to be said at its end: the corrections after the last coded coefficient. */
  function Rest(p: Params, z: Block): seq<bool>
    requires InBand(p)
  {
    Corrections(p, z, PastLast(p, z, p.se + 1), p.se + 1)
  }

  /** How many bands have ended since a coefficient was coded last. */
  function Since(p: Params, zs: seq<Block>): nat
    requires InBand(p)
  {
    if zs == [] then 0
    else
      var z := zs[|zs| - 1];
      if Quiet(p, z) then Since(p, zs[..|zs| - 1]) + 1 else if Coded(p, z[p.se]) then 0 else 1
  }

  /** The corrections passed since. */
  function Waiting(p: Params, zs: seq<Block>): seq<bool>
    requires InBand(p)
  {
    if zs == [] then []
    else
      var z := zs[|zs| - 1];
      (if Quiet(p, z) then Waiting(p, zs[..|zs| - 1]) else []) + Rest(p, z)
  }

  /** A run is cut when its length fills fifteen bits, or when the corrections of one more block might
      not fit a buffer of a thousand. */
  predicate Full(n: nat, be: seq<bool>) { n == 32767 || |be| > 937 }

  /** The run that is still open after the blocks, and its corrections. */
  function Open(p: Params, zs: seq<Block>): (r: (nat, seq<bool>))
    requires InBand(p)
    ensures r.0 < 32767 && |r.1| <= 937 && (r.0 == 0 ==> r.1 == [])
  {
    if zs == [] then (0, [])
    else
      var z := zs[|zs| - 1];
      if !Quiet(p, z) then (if Coded(p, z[p.se]) then 0 else 1, Rest(p, z))
      else
        var (n, be) := Open(p, zs[..|zs| - 1]);
        if Full(n + 1, be + Rest(p, z)) then (0, []) else (n + 1, be + Rest(p, z))
  }

  /** The words before that run: the words of every block with a coded coefficient, after the run that
      it ends, and the runs that were full. */
  ghost function Sent(p: Params, zs: seq<Block>): seq<Word>
    requires InBand(p)
  {
    if zs == [] then []
    else
      var z, ys := zs[|zs| - 1], zs[..|zs| - 1];
      var (n, be) := Open(p, ys);
      if !Quiet(p, z) then Sent(p, ys) + (RunWords(n, be) + Words(p, z, p.ss, 0, []))
      else if Full(n + 1, be + Rest(p, z)) then Sent(p, ys) + RunWords(n + 1, be + Rest(p, z))
      else Sent(p, ys)
  }

  lemma {:induction false} SpellAppend(h: Table, a: seq<Word>, b: seq<Word>)
    requires Legal(h)
    ensures Spell(h, a + b) == Spell(h, a) + Spell(h, b)
    ensures Sendable(h, a + b) <==> Sendable(h, a) && Sendable(h, b)
  {
    hide Legal, Listed, SymBits, Sendable, Spell;
    SpellNone(h);
    if a == [] {
      assert a + b == b;
      assert [] + Spell(h, b) == Spell(h, b);
    } else {
      var w, rest := a[0], a[1..];
      assert a == [w] + rest && a + b == [w] + (rest + b);
      SpellFirst(h, w, rest);
      SpellFirst(h, w, rest + b);
      SpellAppend(h, rest, b);
      var s := SymBits(h, w.Sym());
      assert s + (w.extra + Spell(h, rest)) + Spell(h, b) == s + (w.extra + (Spell(h, rest) + Spell(h, b)));
    }
  }

  lemma Pow2Apart(m: nat, n: nat)
    ensures m < n ==> 2 * Pow2(m) <= Pow2(n)
  {
    if m < n { Pow2Mono(m + 1, n); }
  }

  lemma LogIs(n: nat, e: nat)
    requires Pow2(e) <= n < 2 * Pow2(e)
    ensures Log2(n) == e
  {
    hide Pow2, Log2;
    Pow2Apart(e, Log2(n));
    Pow2Apart(Log2(n), e);
  }

  lemma LogBits(n: nat)
    requires n > 0
    ensures Log2(n) == NBits(n) - 1
  {
    Pow2Double(NBits(n) - 1);
    LogIs(n, NBits(n) - 1);
  }

  /** emit_eobrun sends the word of the run. */
  lemma RunSpelt(h: Table, e: Enc)
    requires Legal(h) && (e.run == 0 ==> e.be == [])
    ensures Flush(h, e) == Enc(e.bits + Spell(h, RunWords(e.run, e.be)), e.ok && Sendable(h, RunWords(e.run, e.be)), 0, [])
  {
    hide Legal, Listed, SymBits, Sendable, Spell, Log2, NBits, Bin;
    SpellNone(h);
    if e.run == 0 {
      assert e.bits + [] == e.bits;
    } else {
      LogBits(e.run);
      var w := RunWords(e.run, e.be)[0];
      SpellFirst(h, w, []);
      assert [w] + [] == [w];
      var s, x := SymBits(h, w.Sym()), Bin(e.run, Log2(e.run));
      assert s + (x + e.be + []) == s + x + e.be;
    }
  }

  /** EOBRUN and BE before and after a block.  A band with a coded coefficient ends the run and starts
      one if its last coefficient is not coded; any other band joins the run. */
  predicate Counted(p: Params, z: Block, run0: nat, be0: nat, run: nat, be: nat)
    requires InBand(p)
  {
    var n := |Rest(p, z)|;
    if !Quiet(p, z) then run == (if Coded(p, z[p.se]) then 0 else 1) && be == n
    else if run0 + 1 == 32767 || be0 + n > 937 then run == 0 && be == 0
    else run == run0 + 1 && be == be0 + n
  }

  /** The end of a block in words. */
  lemma EndSpelt(h: Table, p: Params, e: Enc, z: Block)
    requires Legal(h) && AcScan.Valid(p) && e.run < 32767 && |e.be| <= 937 && (e.run == 0 ==> e.be == [])
    ensures var e', be := EndBlock(h, e, BlockCode(h, p, z)), e.be + Rest(p, z);
      if !Quiet(p, z) then
        var ws := RunWords(e.run, e.be) + Words(p, z, p.ss, 0, []);
        e' == Enc(e.bits + Spell(h, ws), e.ok && Sendable(h, ws), if Coded(p, z[p.se]) then 0 else 1, Rest(p, z))
      else if Full(e.run + 1, be) then
        var ws := RunWords(e.run + 1, be);
        e' == Enc(e.bits + Spell(h, ws), e.ok && Sendable(h, ws), 0, [])
      else e' == Enc(e.bits, e.ok, e.run + 1, be)
    ensures Counted(p, z, e.run, |e.be|, EndBlock(h, e, BlockCode(h, p, z)).run, |EndBlock(h, e, BlockCode(h, p, z)).be|)
  {
    hide Legal, Listed, Flush, BlockCode, Spell, Sendable, RunWords, Corrections, Words, Coded;
    var l, be := BlockCode(h, p, z), e.be + Rest(p, z);
    BlockSpelt(h, p, z);
    if Quiet(p, z) {
      QuietWords(h, p, z);
      RunSpelt(h, Enc(e.bits, e.ok, e.run + 1, be));
    } else {
      RunSpelt(h, e);
      SpellAppend(h, RunWords(e.run, e.be), Words(p, z, p.ss, 0, []));
      Associate(e.bits, Spell(h, RunWords(e.run, e.be)), Spell(h, Words(p, z, p.ss, 0, [])));
      assert [] + Rest(p, z) == Rest(p, z);
      if Coded(p, z[p.se]) { assert PastLast(p, z, p.se + 1) == p.se + 1; NoCorrections(p, z, p.se + 1); }
    }
  }

  lemma NoCorrections(p: Params, z: Block, i: nat)
    requires i <= 64
    ensures Corrections(p, z, i, i) == []
  {
  }

  lemma QuietWords(h: Table, p: Params, z: Block)
    requires Legal(h) && AcScan.Valid(p) && Quiet(p, z)
    ensures Words(p, z, p.ss, 0, []) == [] && Sendable(h, []) && !Coded(p, z[p.se])
  {
    hide Coded;
  }

  /** The whole scan in words: what has been sent, and the run that is still open. */
  lemma {:induction false} ScanSpelt(h: Table, p: Params, zs: seq<Block>)
    requires Legal(h) && AcScan.Valid(p)
    ensures var (n, be) := Open(p, zs);
      EncodeScan(h, p, zs) == Enc(Spell(h, Sent(p, zs)), Sendable(h, Sent(p, zs)), n, be)
  {
    hide Legal, EndBlock, BlockCode, Spell, Sendable, Words, Full, Rest, Coded, Quiet, RunWords;
    if zs == [] {
      SpellNone(h);
    } else {
      var ys, z := zs[..|zs| - 1], zs[|zs| - 1];
      var (n, be) := Open(p, ys);
      ScanSpelt(h, p, ys);
      EndSpelt(h, p, EncodeScan(h, p, ys), z);
      SpellAppend(h, Sent(p, ys), RunWords(n, be) + Words(p, z, p.ss, 0, []));
      SpellAppend(h, Sent(p, ys), RunWords(n + 1, be + Rest(p, z)));
    }
  }

  /** A segment is its words, and there is nothing else in it. */
  lemma SegmentSpelt(h: Table, p: Params, zs: seq<Block>)
    requires Legal(h) && AcScan.Valid(p)
    ensures var ws := Sent(p, zs) + RunWords(Open(p, zs).0, Open(p, zs).1);
      Segment(h, p, zs) == Spell(h, ws) && (Flush(h, EncodeScan(h, p, zs)).ok <==> Sendable(h, ws))
  {
    hide Legal, EncodeScan, Flush, Spell, Sendable, Open, Sent, RunWords;
    ScanSpelt(h, p, zs);
    RunSpelt(h, EncodeScan(h, p, zs));
    SpellAppend(h, Sent(p, zs), RunWords(Open(p, zs).0, Open(p, zs).1));
  }

  // ---------- how long the runs are ----------

  /** Until a limit is reached, one run holds every band since the last coded coefficient. */
  lemma {:induction false} OpenSince(p: Params, zs: seq<Block>)
    requires InBand(p) && Since(p, zs) < 32767 && |Waiting(p, zs)| <= 937
    ensures Open(p, zs) == (Since(p, zs), Waiting(p, zs))
  {
    hide Quiet, Coded, Corrections;
    if zs != [] {
      var z := zs[|zs| - 1];
      if Quiet(p, z) { OpenSince(p, zs[..|zs| - 1]); }
      assert [] + Rest(p, z) == Rest(p, z);
    }
  }

  /** In a first scan only the length is a limit. */
  lemma {:induction false} FirstOpen(p: Params, zs: seq<Block>)
    requires InBand(p) && !p.kind.Refine?
    ensures Open(p, zs) == (Since(p, zs) % 32767, [])
  {
    hide Quiet, Coded;
    if zs != [] {
      FirstOpen(p, zs[..|zs| - 1]);
      FirstWaits(p, zs[|zs| - 1], PastLast(p, zs[|zs| - 1], p.se + 1), p.se + 1);
    }
  }

  lemma {:induction false} FirstWaits(p: Params, z: Block, i: nat, j: nat)
    requires InBand(p) && !p.kind.Refine? && i <= j <= 64
    ensures Corrections(p, z, i, j) == []
    decreases j
  {
    if i < j { FirstWaits(p, z, i, j - 1); }
  }

  ghost predicate AllQuiet(p: Params, zs: seq<Block>) { forall i :: 0 <= i < |zs| ==> Quiet(p, zs[i]) }

  lemma {:induction false} QuietSince(p: Params, zs: seq<Block>)
    requires InBand(p) && AllQuiet(p, zs)
    ensures Since(p, zs) == |zs|
  {
    hide Quiet, Coded;
    if zs != [] { QuietSince(p, zs[..|zs| - 1]); }
  }

  lemma {:induction false} QuietSent(p: Params, zs: seq<Block>)
    requires InBand(p) && AllQuiet(p, zs) && |zs| < 32767 && |Waiting(p, zs)| <= 937
    ensures Sent(p, zs) == []
  {
    hide Quiet, Coded, Corrections;
    if zs != [] {
      var ys, z := zs[..|zs| - 1], zs[|zs| - 1];
      assert Quiet(p, z);
      QuietSent(p, ys);
      QuietSince(p, ys);
      OpenSince(p, ys);
    }
  }

  /** Blocks without a coefficient to code send nothing until the segment ends, and then one symbol for
      all of them, the low bits of their number, and their corrections in order. */
  lemma QuietSegment(h: Table, p: Params, zs: seq<Block>, e: nat)
    requires Legal(h) && AcScan.Valid(p) && AllQuiet(p, zs) && |Waiting(p, zs)| <= 937
    requires Pow2(e) <= |zs| < 2 * Pow2(e) && |zs| < 32767
    ensures EncodeScan(h, p, zs) == Enc([], true, |zs|, Waiting(p, zs))
    ensures Segment(h, p, zs) == SymBits(h, 16 * e) + (Bin(|zs|, e) + Waiting(p, zs))
  {
    hide Legal, EncodeScan, Flush, Spell, Sendable, Open, Sent, SymBits, Bin, Waiting, Since, Quiet;
    ScanSpelt(h, p, zs);
    SegmentSpelt(h, p, zs);
    QuietSince(p, zs);
    QuietSent(p, zs);
    OpenSince(p, zs);
    SpellNone(h);
    LogIs(|zs|, e);
    var w := Word(e, 0, Bin(|zs|, e) + Waiting(p, zs));
    SpellFirst(h, w, []);
    assert [] + [w] == [w] + [];
    assert w.extra + [] == w.extra;
  }
}
