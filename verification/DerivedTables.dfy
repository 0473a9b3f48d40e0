// jpeg_make_c_derived_tbl and jpeg_make_d_derived_tbl: the tables the encoder and the decoder
// expand from a DHT specification, and the checks both make on the way.
module DerivedTables {
  import opened Wrappers
  import opened Bits
  import opened HuffmanTable

  const HUFF_LOOKAHEAD: nat := 8

  datatype CDerived = CDerived(ehufco: seq<nat>, ehufsi: seq<nat>)

  datatype DDerived = DDerived(maxcode: seq<int>, valoffset: seq<int>,
                               lookNbits: seq<nat>, lookSym: seq<nat>, pub: Table)

  // ---------- Figures C.1 and C.2, common to both sides ----------

  /** huffsize[] of a table: the length of every code, then a zero. */
  ghost predicate Sizes(h: Table, huffsize: seq<nat>)
    requires WellTyped(h)
  {
    && Count(h) <= 256 && |huffsize| == 257 && huffsize[Count(h)] == 0
    && (forall q :: 0 <= q < Count(h) ==> huffsize[q] > 0)
    && forall q {:trigger LenAt(h, q)} :: 0 <= q < Count(h) ==> huffsize[q] == LenAt(h, q)
  }

  ghost predicate Codes(h: Table, huffcode: seq<nat>)
    requires WellTyped(h)
  {
    && Count(h) <= 256 && |huffcode| == 257
    && forall q {:trigger CodeAt(h, q)} :: 0 <= q < Count(h) ==> huffcode[q] == CodeAt(h, q)
  }

  method CodeSizes(h: Table) returns (r: Option<seq<nat>>)
    requires WellTyped(h)
    ensures r.Some? <==> Count(h) <= 256
    ensures r.Some? ==> Sizes(h, r.value)
  {
    var huffsize := new nat[257];
    var p := 0;
    for l := 1 to 17
      invariant p == Before(h, l) <= 256
      invariant forall q :: 0 <= q < p && q < Count(h) ==> huffsize[q] == LenAt(h, q)
    {
      var i := h.bits[l];
      BeforeMono(h, l + 1, 17);
      if p + i > 256 { return None; }
      while i > 0
        invariant 0 <= i <= h.bits[l] && p == Before(h, l + 1) - i
        invariant forall q :: 0 <= q < p && q < Count(h) ==> huffsize[q] == LenAt(h, q)
      {
        LenAtIs(h, p, l);
        huffsize[p] := l;
        p, i := p + 1, i - 1;
      }
    }
    huffsize[p] := 0;
    r := Some(huffsize[..]);
  }

  lemma {:induction false} NoneShorter(h: Table, m: nat, k: nat)
    requires WellTyped(h) && k <= m <= 17 && Before(h, m) == 0
    ensures First(h, k) == 0 && (1 <= k < m ==> Limit(h, k) == 0)
    decreases k
  {
    BeforeMono(h, k, m);
    if k < m { BeforeMono(h, k + 1, m); }
    if k > 1 { NoneShorter(h, m, k - 1); }
  }

  lemma NoneShorterThan(h: Table, m: nat)
    requires WellTyped(h) && 0 < Count(h) <= 256 && m == LenAt(h, 0)
    ensures Before(h, m) == 0 && First(h, m) == 0
    ensures forall k {:trigger Limit(h, k)} :: 1 <= k < m ==> Limit(h, k) < Pow2(k)
  {
    forall k | 1 <= k <= m ensures First(h, k) == 0 && (k < m ==> Limit(h, k) == 0) {
      NoneShorter(h, m, k);
    }
  }

  lemma {:induction false} NoneLonger(h: Table, m: nat, k: nat)
    requires WellTyped(h) && 1 <= m <= k <= 16 && Before(h, m) == Count(h)
    requires m > 1 ==> Limit(h, m - 1) < Pow2(m - 1)
    ensures Limit(h, k) < Pow2(k)
    decreases k
  {
    BeforeMono(h, m, k);
    BeforeMono(h, k + 1, 17);
    if k > m { NoneLonger(h, m, k - 1); }
  }

  lemma NoneLongerThan(h: Table, m: nat)
    requires WellTyped(h) && Count(h) <= 256 && 1 <= m <= 17 && Before(h, m) == Count(h)
    requires forall k {:trigger Limit(h, k)} :: 1 <= k < m ==> Limit(h, k) < Pow2(k)
    ensures Legal(h)
  {
    forall l | 1 <= l <= 16 ensures Limit(h, l) < Pow2(l) {
      if l >= m { NoneLonger(h, m, l); }
    }
  }

  /** The inner loop of figure C.2: consecutive codes for one length. */
  method NumberCodes(huffsize: seq<nat>, huffcode: array<nat>, si: int, p0: nat, code0: nat, ghost end: nat)
    returns (p: nat, code: nat)
    requires p0 <= end < |huffsize| == huffcode.Length
    requires (forall q :: p0 <= q < end ==> huffsize[q] == si) && huffsize[end] != si
    modifies huffcode
    ensures p == end && code == code0 + (end - p0)
    ensures forall q :: 0 <= q < huffcode.Length ==>
      huffcode[q] == if p0 <= q < end then code0 + (q - p0) else old(huffcode[q])
  {
    p, code := p0, code0;
    while huffsize[p] == si
      invariant p0 <= p <= end && code == code0 + (p - p0)
      invariant forall q :: 0 <= q < huffcode.Length ==>
        huffcode[q] == if p0 <= q < p then code0 + (q - p0) else old(huffcode[q])
      decreases end - p
    {
      huffcode[p] := code;
      p := p + 1;
      code := code + 1;
    }
  }

  /** The codes of one length are consecutive. */
  lemma LengthRange(h: Table, l: nat)
    requires |h.bits| == 17 && 1 <= l <= 16
    ensures Before(h, l) <= Before(h, l + 1) <= Count(h)
    ensures forall q {:trigger CodeAt(h, q)} :: Before(h, l) <= q < Before(h, l + 1) ==>
      CodeAt(h, q) == First(h, l) + (q - Before(h, l))
    ensures forall q {:trigger LenAt(h, q)} :: Before(h, l) <= q < Before(h, l + 1) ==> LenAt(h, q) == l
    ensures Before(h, l + 1) < Count(h) ==> LenAt(h, Before(h, l + 1)) > l
  {
    BeforeMono(h, l + 1, 17);
    forall q | Before(h, l) <= q < Before(h, l + 1)
      ensures LenAt(h, q) == l && CodeAt(h, q) == First(h, l) + (q - Before(h, l))
    {
      LenAtIs(h, q, l);
    }
    if Before(h, l + 1) < Count(h) {
      var m := LenAt(h, Before(h, l + 1));
      if m <= l { BeforeMono(h, m + 1, l + 1); }
    }
  }

  lemma SizeRange(h: Table, l: nat, huffsize: seq<nat>)
    requires WellTyped(h) && Sizes(h, huffsize) && 1 <= l <= 16
    ensures Before(h, l) <= Before(h, l + 1) <= Count(h)
    ensures forall q :: Before(h, l) <= q < Before(h, l + 1) ==> huffsize[q] == l
    ensures huffsize[Before(h, l + 1)] != l
    ensures forall q :: Before(h, l) <= q < Before(h, l + 1) ==> AllCodes(h)[q] == First(h, l) + (q - Before(h, l))
  {
    LengthRange(h, l);
    forall q | Before(h, l) <= q < Before(h, l + 1)
      ensures huffsize[q] == l && AllCodes(h)[q] == First(h, l) + (q - Before(h, l))
    {
      assert LenAt(h, q) == l && AllCodes(h)[q] == CodeAt(h, q);
    }
  }

  ghost function AllCodes(h: Table): (s: seq<nat>)
    requires WellTyped(h)
    ensures |s| == Count(h)
  {
    seq(Count(h), q requires 0 <= q < Count(h) => CodeAt(h, q))
  }

  lemma CodeRange(h: Table, l: nat, huffcode: seq<nat>)
    requires WellTyped(h) && Codes(h, huffcode) && 1 <= l <= 16
    ensures Before(h, l) <= Before(h, l + 1) <= Count(h)
    ensures h.bits[l] > 0 ==> huffcode[Before(h, l)] == First(h, l) && huffcode[Before(h, l + 1) - 1] == Limit(h, l) - 1
  {
    LengthRange(h, l);
    if h.bits[l] > 0 {
      assert huffcode[Before(h, l)] == CodeAt(h, Before(h, l));
      assert huffcode[Before(h, l + 1) - 1] == CodeAt(h, Before(h, l + 1) - 1);
    }
  }

  method GenerateCodes(h: Table, huffsize: seq<nat>) returns (r: Option<seq<nat>>)
    requires WellTyped(h) && Sizes(h, huffsize)
    ensures r.Some? <==> Legal(h)
    ensures r.Some? ==> Codes(h, r.value)
  {
    var huffcode := new nat[257];
    var code: nat, si: int, p: nat := 0, huffsize[0], 0;
    ghost var want, n := AllCodes(h), Count(h);
    if n > 0 { NoneShorterThan(h, si); }
    while huffsize[p] != 0
      invariant p <= n && (n > 0 ==> 1 <= si <= 17 && p == Before(h, si) && code == First(h, si))
      invariant n == 0 ==> si == 0
      invariant forall m {:trigger Limit(h, m)} :: 1 <= m < si ==> Limit(h, m) < Pow2(m)
      invariant forall q :: 0 <= q < p ==> huffcode[q] == want[q]
      decreases 17 - si
    {
      SizeRange(h, si, huffsize);
      p, code := NumberCodes(huffsize, huffcode, si, p, code, Before(h, si + 1));
      ShlPow2(si);
      assert code == Limit(h, si);
      if code >= Shl(1, si) { return None; }
      code := 2 * code;
      si := si + 1;
    }
    NoneLongerThan(h, if n == 0 then 1 else si);
    r := Some(huffcode[..]);
  }

  // ---------- Figure C.3: the encoder's table ----------

  /** What the encoder's checks admit. */
  ghost predicate EncoderLegal(h: Table, isDC: bool) {
    && Legal(h)
    && (forall p :: 0 <= p < Count(h) ==> h.huffval[p] <= if isDC then 15 else 255)
    && (forall p, q :: 0 <= p < q < Count(h) ==> h.huffval[p] != h.huffval[q])
  }

  /** The encoder's entry for s is the code at the only place s is listed, or size 0. */
  ghost predicate Encodes(h: Table, c: CDerived, n: nat)
    requires WellTyped(h) && n <= Count(h) <= 256
  {
    && |c.ehufco| == |c.ehufsi| == 256
    && (forall p :: 0 <= p < n ==> c.ehufco[h.huffval[p]] == CodeAt(h, p) && c.ehufsi[h.huffval[p]] == LenAt(h, p))
    && (forall s :: 0 <= s < 256 && c.ehufsi[s] != 0 ==> exists p :: 0 <= p < n && h.huffval[p] == s)
  }

  method MakeCDerivedTbl(h: Table, isDC: bool) returns (r: Option<CDerived>)
    requires WellTyped(h)
    ensures r.Some? <==> EncoderLegal(h, isDC)
    ensures r.Some? ==> Encodes(h, r.value, Count(h))
  {
    var sizes := CodeSizes(h);
    if sizes.None? { return None; }
    var codes := GenerateCodes(h, sizes.value);
    if codes.None? { return None; }
    var huffsize, huffcode, lastp := sizes.value, codes.value, Before(h, 17);
    var ehufco, ehufsi := new nat[256](_ => 0), new nat[256](_ => 0);
    var maxsymbol := if isDC then 15 else 255;
    ghost var place := seq(256, _ => 0);
    for p := 0 to lastp
      invariant |place| == 256
      invariant forall q :: 0 <= q < p ==> ehufco[h.huffval[q]] == huffcode[q] && ehufsi[h.huffval[q]] == huffsize[q]
      invariant forall q :: 0 <= q < p ==> h.huffval[q] <= maxsymbol && place[h.huffval[q]] == q
      invariant forall s :: 0 <= s < 256 && ehufsi[s] != 0 ==> 0 <= place[s] < p && h.huffval[place[s]] == s
    {
      var i := h.huffval[p];
      if i > maxsymbol || ehufsi[i] != 0 { return None; }
      ehufco[i] := huffcode[p];
      ehufsi[i] := huffsize[p];
      place := place[i := p];
    }
    r := Some(CDerived(ehufco[..], ehufsi[..]));
  }

  // ---------- Figure F.15 and the lookahead table: the decoder's table ----------

  ghost predicate DecoderLegal(h: Table, isDC: bool) {
    && Legal(h)
    && (isDC ==> forall p :: 0 <= p < Count(h) ==> h.huffval[p] <= 15)
  }

  /** The lookahead entry for eight bits x: what bit-serial decoding makes of them,
      a length of 0 when they hold no complete code. */
  ghost function Look(h: Table, x: nat): (nat, nat)
    requires Legal(h)
  {
    match Serial(h, Bin(x, HUFF_LOOKAHEAD))
    case None => (0, 0)
    case Some((s, rest)) => (HUFF_LOOKAHEAD - |rest|, s)
  }

  ghost predicate Lookahead(h: Table, nbits: seq<nat>, sym: seq<nat>)
    requires Legal(h)
  {
    && |nbits| == |sym| == 256
    && forall x :: 0 <= x < 256 ==> nbits[x] == Look(h, x).0 && (nbits[x] > 0 ==> sym[x] == Look(h, x).1)
  }

  ghost predicate Decodes(h: Table, d: DDerived) {
    && Legal(h) && d.pub == h
    && |d.maxcode| == 18 && |d.valoffset| == 17
    && (forall l {:trigger d.maxcode[l]} :: 1 <= l <= 17 ==> d.maxcode[l] == MaxCode(h, l))
    && (forall l {:trigger d.valoffset[l]} :: 1 <= l <= 16 && h.bits[l] > 0 ==> d.valoffset[l] == Before(h, l) - First(h, l))
    && Lookahead(h, d.lookNbits, d.lookSym)
  }

  /** All the indices that start with a given short code decode to it. */
  lemma LookCode(h: Table, q: nat, x: nat)
    requires Legal(h) && q < Count(h) && LenAt(h, q) <= HUFF_LOOKAHEAD
    requires Shl(CodeAt(h, q), HUFF_LOOKAHEAD - LenAt(h, q)) <= x < Shl(CodeAt(h, q) + 1, HUFF_LOOKAHEAD - LenAt(h, q))
    ensures Look(h, x) == (LenAt(h, q), h.huffval[q])
  {
    hide Serial, Bin, LenAt, CodeAt, Shl;
    var l, c := LenAt(h, q), CodeAt(h, q);
    var w := HUFF_LOOKAHEAD - l;
    ShlAdd(c, 1, w);
    ShlPow2(w);
    var low := x - Shl(c, w);
    assert Bin(x, HUFF_LOOKAHEAD) == CodeBits(h, q) + Bin(low, w) by { BinJoin(c, low, l, w); }
    SerialDecodesCode(h, q, Bin(low, w));
  }

  /** An index above every code of length up to eight decodes to nothing. */
  lemma {:induction false} LookNone(h: Table, x: nat, n: nat, m: nat)
    requires Legal(h) && 1 <= m <= n <= 16 && Limit(h, n) <= x
    ensures First(h, m) <= Shr(x, n - m)
    ensures SerialAt(h, Shr(x, n - m), m, Bin(x, n - m)).None?
    decreases n - m
  {
    hide Bin, Shr, SerialAt;
    ShiftNone(x);
    if m < n { PrefixAbove(h, x, n, m); }
    SerialStep(h, Shr(x, n - m), m, Bin(x, n - m));
    if m < n {
      BinHead(x, n - m, []);
      assert Bin(x, n - m) + [] == Bin(x, n - m);
      assert Bin(x, n - m - 1) + [] == Bin(x, n - m - 1);
      LookNone(h, x, n, m + 1);
    }
  }

  /** The entries below this index belong to the codes before the p-th, whose length is l. */
  function LookEnd(h: Table, l: nat, p: nat): int
    requires |h.bits| == 17 && 1 <= l <= HUFF_LOOKAHEAD && Before(h, l) <= p
  {
    Shl(First(h, l) + (p - Before(h, l)), HUFF_LOOKAHEAD - l)
  }

  lemma LookEndBound(h: Table, l: nat, p: nat)
    requires Legal(h) && 1 <= l <= HUFF_LOOKAHEAD && Before(h, l) <= p <= Before(h, l + 1)
    ensures 0 <= LookEnd(h, l, p) <= 256
  {
    var w := HUFF_LOOKAHEAD - l;
    assert First(h, l) + (p - Before(h, l)) <= Limit(h, l);
    ShlMono(First(h, l) + (p - Before(h, l)), Pow2(l), w);
    ShlMono(0, First(h, l) + (p - Before(h, l)), w);
    ShlPow2(l);
    ShlPow2(w);
    ShlPow2(HUFF_LOOKAHEAD);
    ShlShl(1, l, w);
    Pow2Values();
  }

  lemma LookEndNext(h: Table, l: nat)
    requires Legal(h) && 1 <= l < HUFF_LOOKAHEAD
    ensures Before(h, l) <= Before(h, l + 1)
    ensures LookEnd(h, l + 1, Before(h, l + 1)) == LookEnd(h, l, Before(h, l + 1))
  {
    ShlInner(Limit(h, l), HUFF_LOOKAHEAD - l - 1);
  }

  /** The block of entries that the p-th code takes, and their contents. */
  lemma LookBlock(h: Table, l: nat, p: nat)
    requires Legal(h) && 1 <= l <= HUFF_LOOKAHEAD && Before(h, l) <= p < Before(h, l + 1)
    ensures p < Count(h) && 0 <= LookEnd(h, l, p) && LookEnd(h, l, p + 1) <= 256
    ensures LookEnd(h, l, p) == Shl(CodeAt(h, p), HUFF_LOOKAHEAD - l)
    ensures LookEnd(h, l, p + 1) == LookEnd(h, l, p) + Shl(1, HUFF_LOOKAHEAD - l) && Shl(1, HUFF_LOOKAHEAD - l) > 0
    ensures forall x :: LookEnd(h, l, p) <= x < LookEnd(h, l, p + 1) ==> Look(h, x) == (l, h.huffval[p])
  {
    LengthRange(h, l);
    LookEndBound(h, l, p);
    LookEndBound(h, l, p + 1);
    ShlAdd(CodeAt(h, p), 1, HUFF_LOOKAHEAD - l);
    ShlPow2(HUFF_LOOKAHEAD - l);
    forall x | LookEnd(h, l, p) <= x < LookEnd(h, l, p + 1) ensures Look(h, x) == (l, h.huffval[p]) {
      LookCode(h, p, x);
    }
  }

  /** The innermost lookahead loop. */
  method FillEntries(lookNbits: array<nat>, lookSym: array<nat>, start: nat, n: int, l: nat, sym: nat)
    requires lookNbits != lookSym && lookNbits.Length == lookSym.Length == 256 && 0 <= n && start + n <= 256
    modifies lookNbits, lookSym
    ensures forall x :: 0 <= x < 256 ==>
      lookNbits[x] == (if start <= x < start + n then l else old(lookNbits[x])) &&
      lookSym[x] == (if start <= x < start + n then sym else old(lookSym[x]))
  {
    var lookbits, ctr := start, n;
    while ctr > 0
      invariant 0 <= ctr <= n && lookbits == start + n - ctr
      invariant forall x :: 0 <= x < 256 ==>
        lookNbits[x] == (if start <= x < lookbits then l else old(lookNbits[x])) &&
        lookSym[x] == (if start <= x < lookbits then sym else old(lookSym[x]))
    {
      lookNbits[lookbits] := l;
      lookSym[lookbits] := sym;
      lookbits, ctr := lookbits + 1, ctr - 1;
    }
  }

  /** The lookahead loops.  Canonical codes fill the table from the bottom without gap or
      collision, so the entries below `top` are exactly those already decided. */
  method FillLookahead(h: Table, huffcode: seq<nat>) returns (nbits: seq<nat>, sym: seq<nat>)
    requires Legal(h) && Codes(h, huffcode)
    ensures Lookahead(h, nbits, sym)
  {
    var lookNbits, lookSym := new nat[256](_ => 0), new nat[256](_ => 0);
    ghost var want := seq(256, x requires 0 <= x => Look(h, x));
    var p := 0;
    ghost var top: int := 0;
    ShlPow2(7);
    for l := 1 to HUFF_LOOKAHEAD + 1
      invariant p == Before(h, l) && 0 <= top <= 256
      invariant top == if l <= HUFF_LOOKAHEAD then LookEnd(h, l, p) else Limit(h, HUFF_LOOKAHEAD)
      invariant forall x :: 0 <= x < top ==> want[x] == (lookNbits[x], lookSym[x])
      invariant forall x :: top <= x < 256 ==> lookNbits[x] == 0
    {
      LengthRange(h, l);
      for i := 0 to h.bits[l]
        invariant p == Before(h, l) + i && top == LookEnd(h, l, p) && 0 <= top <= 256
        invariant forall x :: 0 <= x < top ==> want[x] == (lookNbits[x], lookSym[x])
        invariant forall x :: top <= x < 256 ==> lookNbits[x] == 0
      {
        LookBlock(h, l, p);
        FillEntries(lookNbits, lookSym, Shl(huffcode[p], HUFF_LOOKAHEAD - l), Shl(1, HUFF_LOOKAHEAD - l), l, h.huffval[p]);
        p := p + 1;
        top := LookEnd(h, l, p);
      }
      if l < HUFF_LOOKAHEAD { LookEndNext(h, l); }
    }
    LookRest(h, want, top);
    nbits, sym := lookNbits[..], lookSym[..];
  }

  lemma LookRest(h: Table, want: seq<(nat, nat)>, top: int)
    requires Legal(h) && |want| == 256 && top == Limit(h, HUFF_LOOKAHEAD)
    requires forall x :: 0 <= x < 256 ==> want[x] == Look(h, x)
    ensures forall x :: top <= x < 256 ==> want[x].0 == 0
  {
    Pow2Values();
    forall x | top <= x < 256 ensures want[x].0 == 0 {
      LookNone(h, x, HUFF_LOOKAHEAD, 1);
      SerialStart(h, x, HUFF_LOOKAHEAD, []);
      assert Bin(x, HUFF_LOOKAHEAD) + [] == Bin(x, HUFF_LOOKAHEAD);
      assert Bin(x, HUFF_LOOKAHEAD - 1) + [] == Bin(x, HUFF_LOOKAHEAD - 1);
    }
  }

  /** Figure F.15. */
  method DecodingBounds(h: Table, huffcode: seq<nat>) returns (maxcodes: seq<int>, valoffsets: seq<int>)
    requires Legal(h) && Codes(h, huffcode)
    ensures |maxcodes| == 18 && |valoffsets| == 17
    ensures forall l {:trigger maxcodes[l]} :: 1 <= l <= 17 ==> maxcodes[l] == MaxCode(h, l)
    ensures forall l {:trigger valoffsets[l]} :: 1 <= l <= 16 && h.bits[l] > 0 ==> valoffsets[l] == Before(h, l) - First(h, l)
  {
    var maxcode, valoffset := new int[18], new int[17];
    var p := 0;
    for l := 1 to 17
      invariant p == Before(h, l)
      invariant forall m {:trigger maxcode[m]} :: 1 <= m < l ==> maxcode[m] == MaxCode(h, m)
      invariant forall m {:trigger valoffset[m]} :: 1 <= m < l && h.bits[m] > 0 ==> valoffset[m] == Before(h, m) - First(h, m)
    {
      CodeRange(h, l, huffcode);
      if h.bits[l] != 0 {
        valoffset[l] := p - huffcode[p];
        p := p + h.bits[l];
        maxcode[l] := huffcode[p - 1];
      } else {
        maxcode[l] := -1;
      }
    }
    maxcode[17] := 0xFFFFF;
    maxcodes, valoffsets := maxcode[..], valoffset[..];
  }

  method MakeDDerivedTbl(h: Table, isDC: bool) returns (r: Option<DDerived>)
    requires WellTyped(h)
    ensures r.Some? <==> DecoderLegal(h, isDC)
    ensures r.Some? ==> Decodes(h, r.value)
  {
    var sizes := CodeSizes(h);
    if sizes.None? { return None; }
    var codes := GenerateCodes(h, sizes.value);
    if codes.None? { return None; }
    var maxcode, valoffset := DecodingBounds(h, codes.value);
    var nbits, sym := FillLookahead(h, codes.value);
    if isDC {
      for i := 0 to Before(h, 17)
        invariant forall q :: 0 <= q < i ==> h.huffval[q] <= 15
      {
        if h.huffval[i] > 15 { return None; }
      }
    }
    r := Some(DDerived(maxcode, valoffset, nbits, sym, h));
  }
}
