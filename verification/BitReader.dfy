// jdhuff.h and the bit-fetching half of jdhuff.c: the register the decoder keeps, byte
// destuffing, and HUFF_DECODE against the bit-serial decoder of figure F.16.
//
// The working state is a value, as in the source, where it lives in local variables and is
// copied back only when an MCU is complete.
module BitReader {
  import opened Wrappers
  import opened Bits
  import opened HuffmanTable
  import opened DerivedTables

  const MIN_GET_BITS: nat := 25
  const BUF_SIZE: nat := 32

  /** What one attempt to fetch a data byte meets: data (with 0xFF/0x00 read as 0xFF), a marker,
      or the end of what the source can deliver for now. */
  datatype Unit = Starved | Data(value: byte, used: nat) | Marker(code: byte, used: nat)

  function NextUnit(s: seq<byte>): (u: Unit)
    ensures !u.Starved? ==> 1 <= u.used <= |s|
    ensures u.Marker? ==> u.code != 0 && u.code != 0xFF
  {
    if s == [] then Starved else if s[0] != 0xFF then Data(s[0], 1) else AfterFF(s, 1)
  }

  function AfterFF(s: seq<byte>, i: nat): (u: Unit)
    requires 1 <= i <= |s|
    ensures !u.Starved? ==> i < u.used <= |s|
    ensures u.Marker? ==> u.code != 0 && u.code != 0xFF
    decreases |s| - i
  {
    if i == |s| then Starved
    else if s[i] == 0xFF then AfterFF(s, i + 1)
    else if s[i] == 0 then Data(0xFF, i + 1)
    else Marker(s[i], i + 1)
  }

  function Fill(n: nat): (f: seq<byte>)
    ensures |f| == n && forall i :: 0 <= i < n ==> f[i] == 0xFF
  {
    seq(n, _ => 0xFF)
  }

  lemma {:induction false} FillEnds(s: seq<byte>, i: nat, n: nat, c: byte, t: seq<byte>)
    requires 1 <= i <= n && s == Fill(n) + [c] + t && c != 0xFF
    ensures AfterFF(s, i) == if c == 0 then Data(0xFF, n + 1) else Marker(c, n + 1)
    decreases n - i
  {
    if i < n { FillEnds(s, i + 1, n, c, t); }
  }

  lemma {:induction false} FillStarves(n: nat, i: nat)
    requires 1 <= i <= n
    ensures AfterFF(Fill(n), i) == Starved
    decreases n - i
  {
    if i < n { FillStarves(n, i + 1); }
  }

  /** One unit of input: a byte other than 0xFF stands for itself; any number of bytes 0xFF stand for one with a zero
      after them, begin a marker with any other byte after them, and are not enough without. */
  lemma Units(n: nat, c: byte, t: seq<byte>)
    requires c != 0xFF
    ensures n == 0 ==> NextUnit([c] + t) == Data(c, 1)
    ensures n > 0 ==> NextUnit(Fill(n) + [c] + t) == if c == 0 then Data(0xFF, n + 1) else Marker(c, n + 1)
    ensures NextUnit(Fill(n)) == Starved
  {
    if n > 0 {
      FillEnds(Fill(n) + [c] + t, 1, n, c, t);
      FillStarves(n, 1);
    }
  }

  /** The data bits in s up to its first marker. */
  function Destuff(s: seq<byte>): seq<bool>
    decreases |s|
  {
    match NextUnit(s)
    case Data(c, n) => Bin(c, 8) + Destuff(s[n..])
    case _ => []
  }

  /** The first marker in s and the bytes after it, None if s ends before one. */
  function MarkerIn(s: seq<byte>): (r: Option<(byte, seq<byte>)>)
    ensures r.Some? ==> r.value.0 != 0 && r.value.0 != 0xFF
    decreases |s|
  {
    match NextUnit(s)
    case Data(c, n) => MarkerIn(s[n..])
    case Marker(m, n) => Some((m, s[n..]))
    case Starved => None
  }

  /** The first bytes of a unit that has not arrived completely, if no marker comes before. */
  function StubIn(s: seq<byte>): seq<byte>
    decreases |s|
  {
    match NextUnit(s)
    case Data(c, n) => StubIn(s[n..])
    case Marker(m, n) => []
    case Starved => s
  }

  /** bitread_working_state together with the part of the source manager it reads.  `input` is what
      the source will deliver before it refuses; `unreadMarker` is cinfo->unread_marker. */
  datatype Reader = Reader(input: seq<byte>, pos: nat, getBuffer: nat, bitsLeft: nat,
                           unreadMarker: byte, insufficient: bool)
  {
    predicate Valid() {
      pos <= |input| && getBuffer < Pow2(BUF_SIZE) && bitsLeft <= BUF_SIZE
    }

    function Held(): seq<bool> { Bin(getBuffer, bitsLeft) }

    /** All data bits that can be had without touching the source again. */
    function Rest(): seq<bool>
      requires Valid()
    {
      Held() + if unreadMarker != 0 then [] else Destuff(input[pos..])
    }

    /** The marker that ends the data, and what follows it. */
    function End(): Option<(byte, seq<byte>)>
      requires Valid()
    {
      if unreadMarker != 0 then Some((unreadMarker, input[pos..])) else MarkerIn(input[pos..])
    }

    /** What the reader will come to when its data are used up. */
    function Future(): (Option<(byte, seq<byte>)>, seq<byte>)
      requires Valid()
    {
      (End(), if unreadMarker != 0 then [] else StubIn(input[pos..]))
    }

    /** GET_BITS(n): the value and the state. */
    function Peek(n: nat): nat
      requires Valid() && n <= bitsLeft
    {
      Low(Shr(getBuffer, bitsLeft - n), n)
    }

    function Drop(n: nat): Reader
      requires Valid() && n <= bitsLeft
    {
      this.(bitsLeft := bitsLeft - n)
    }

    /** The state after zero bits have been supplied at the end of the data. */
    function Filled(): Reader
      requires bitsLeft < MIN_GET_BITS
    {
      this.(insufficient := true, bitsLeft := MIN_GET_BITS,
            getBuffer := Low(Shl(getBuffer, MIN_GET_BITS - bitsLeft), BUF_SIZE))
    }

    /** The state after a byte has been fetched: data goes into the register, a marker is kept aside. */
    function Load(u: Unit): Reader
      requires !u.Starved?
    {
      match u
      case Data(c, n) =>
        this.(pos := pos + n, getBuffer := Or(Low(Shl(getBuffer, 8), BUF_SIZE), c), bitsLeft := bitsLeft + 8)
      case Marker(m, n) =>
        this.(pos := pos + n, unreadMarker := m)
    }
  }

  /** r' is r after reading more data into the register; nothing is lost. */
  ghost predicate Same(r: Reader, r': Reader) {
    r.Valid() && r'.Valid() && r'.Rest() == r.Rest() && r'.End() == r.End() && r'.Future() == r.Future() && r'.insufficient == r.insufficient
  }

  lemma HeldSplit(r: Reader, n: nat)
    requires r.Valid() && n <= r.bitsLeft
    ensures r.Held() == Bin(r.Peek(n), n) + r.Drop(n).Held()
  {
    BinSplit(r.getBuffer, n, r.bitsLeft - n);
    BinLow(Shr(r.getBuffer, r.bitsLeft - n), n, n);
  }

  lemma GetBitsAre(r: Reader, n: nat)
    requires r.Valid() && n <= r.bitsLeft
    ensures r.Drop(n).Valid() && r.Drop(n).End() == r.End() && r.Drop(n).Future() == r.Future()
    ensures r.Rest() == Bin(r.Peek(n), n) + r.Drop(n).Rest() && r.Peek(n) < Pow2(n)
  {
    hide Bin, Destuff, Low, Shr, Val;
    HeldSplit(r, n);
    var ahead := if r.unreadMarker != 0 then [] else Destuff(r.input[r.pos..]);
    assert r.Rest() == Bin(r.Peek(n), n) + (r.Drop(n).Held() + ahead);
  }

  lemma LoadByte(r: Reader, u: Unit)
    requires r.Valid() && r.unreadMarker == 0 && r.bitsLeft < MIN_GET_BITS
    requires u == NextUnit(r.input[r.pos..])
    ensures !u.Starved? ==> Same(r, r.Load(u))
    ensures u.Starved? ==> r.End() == None
  {
    hide Bin, Low, Shl, Or, Pow2, NextUnit;
    if !u.Starved? {
      assert r.input[r.pos..][u.used..] == r.input[r.pos + u.used..];
    }
    if u.Data? {
      LoadData(r, u.value);
      var ahead := Destuff(r.input[r.pos + u.used..]);
      assert r.Held() + (Bin(u.value, 8) + ahead) == (r.Held() + Bin(u.value, 8)) + ahead;
    }
  }

  lemma LoadData(r: Reader, c: byte)
    requires r.Valid() && r.bitsLeft < MIN_GET_BITS
    ensures Low(Shl(r.getBuffer, 8), BUF_SIZE) >= 0
    ensures Bin(Or(Low(Shl(r.getBuffer, 8), BUF_SIZE), c), r.bitsLeft + 8) == r.Held() + Bin(c, 8)
    ensures Or(Low(Shl(r.getBuffer, 8), BUF_SIZE), c) < Pow2(BUF_SIZE)
  {
    Pow2Values();
    BinAppend(r.getBuffer, c, BUF_SIZE, r.bitsLeft, 8);
  }

  lemma ZeroFill(r: Reader)
    requires r.Valid() && r.unreadMarker != 0 && r.bitsLeft < MIN_GET_BITS
    ensures r.Filled().Valid() && r.Filled().End() == r.End() && r.Filled().Future() == r.Future()
    ensures r.Filled().Rest() == r.Rest() + Bin(0, MIN_GET_BITS - r.bitsLeft)
  {
    hide Bin, Low, Shl;
    BinAppend(r.getBuffer, 0, BUF_SIZE, r.bitsLeft, MIN_GET_BITS - r.bitsLeft);
  }

  /** One trip of the loop in jpeg_fill_bit_buffer up to the byte it finds. */
  method ReadByte(input: seq<byte>, pos: nat) returns (u: Unit)
    requires pos <= |input|
    ensures u == NextUnit(input[pos..])
  {
    ghost var s := input[pos..];
    if pos == |input| { return Starved; }
    var c := input[pos];
    var next := pos + 1;
    if c != 0xFF { return Data(c, 1); }
    while true
      invariant pos + 1 <= next <= |input| && NextUnit(s) == AfterFF(s, next - pos)
      decreases |input| - next
    {
      if next == |input| { return Starved; }
      assert input[next] == s[next - pos];
      c := input[next];
      next := next + 1;
      if c != 0xFF { break; }
    }
    u := if c == 0 then Data(0xFF, next - pos) else Marker(c, next - pos);
  }

  /** The loop of jpeg_fill_bit_buffer. */
  method LoadBytes(r: Reader) returns (ok: bool, r': Reader)
    requires r.Valid() && r.unreadMarker == 0
    ensures r.End().Some? ==> ok
    ensures ok ==> Same(r, r') && r'.input == r.input && r.pos <= r'.pos
    ensures ok ==> r'.unreadMarker != 0 || MIN_GET_BITS <= r'.bitsLeft
  {
    r' := r;
    while r'.bitsLeft < MIN_GET_BITS
      invariant Same(r, r') && r'.unreadMarker == 0 && r'.input == r.input && r.pos <= r'.pos
      decreases BUF_SIZE - r'.bitsLeft
    {
      var u := ReadByte(r'.input, r'.pos);
      LoadByte(r', u);
      if u.Starved? { return false, r; }
      r' := r'.Load(u);
      if u.Marker? { break; }
    }
    ok := true;
  }

  /** jpeg_fill_bit_buffer.  Fails only if the source runs dry before a marker; otherwise the
      register holds nbits, which are real data whenever that much data is left. */
  method FillBitBuffer(r: Reader, nbits: nat) returns (ok: bool, r': Reader)
    requires r.Valid() && nbits <= MIN_GET_BITS
    ensures r.End().Some? ==> ok
    ensures ok ==> r'.Valid() && nbits <= r'.bitsLeft && r'.input == r.input && r.pos <= r'.pos
    ensures ok && nbits <= |r.Rest()| ==> Same(r, r') && (r'.bitsLeft < MIN_GET_BITS ==> r'.Rest() == r'.Held())
    ensures ok && r'.unreadMarker == 0 ==> nbits <= |r.Rest()|
    ensures ok && nbits > |r.Rest()| ==> r'.insufficient && r'.End() == r.End()
    ensures ok ==> r'.Future() == r.Future()
    ensures ok ==> r.Rest() <= r'.Rest()
    ensures r.unreadMarker != 0 ==> ok && r'.unreadMarker == r.unreadMarker
  {
    ok, r' := true, r;
    if r.unreadMarker == 0 {
      ok, r' := LoadBytes(r);
      if !ok { return; }
    }
    if r'.unreadMarker != 0 && nbits > r'.bitsLeft {
      ZeroFill(r');
      r' := r'.Filled();
    }
  }

  /** CHECK_BIT_BUFFER */
  method CheckBitBuffer(r: Reader, nbits: nat) returns (ok: bool, r': Reader)
    requires r.Valid() && nbits <= MIN_GET_BITS
    ensures r.End().Some? ==> ok
    ensures ok ==> r'.Valid() && nbits <= r'.bitsLeft && r'.input == r.input && r.pos <= r'.pos
    ensures ok && nbits <= |r.Rest()| ==> Same(r, r')
    ensures ok && r'.unreadMarker == 0 ==> nbits <= |r.Rest()|
    ensures ok && nbits > |r.Rest()| ==> r'.insufficient && r'.End() == r.End()
    ensures ok ==> r'.Future() == r.Future()
    ensures ok ==> r.Rest() <= r'.Rest()
    ensures r.unreadMarker != 0 ==> ok && r'.unreadMarker == r.unreadMarker
  {
    if r.bitsLeft < nbits {
      ok, r' := FillBitBuffer(r, nbits);
    } else {
      ok, r' := true, r;
    }
  }

  // ---------- Huffman symbols ----------

  /** Reading one symbol from r came to r': if the bits at hand hold a symbol, it is the one
      figure F.16 finds, with the same bits consumed.  They can only fall short before a marker. */
  ghost predicate Decoded(h: Table, r: Reader, sym: nat, r': Reader)
    requires Legal(h) && r.Valid()
  {
    && r'.Valid() && r'.input == r.input && sym <= 255 && Possible(h, sym) && (r.unreadMarker != 0 ==> r'.unreadMarker != 0)
    && r'.Future() == r.Future()
    && match Serial(h, r.Rest())
       case None => r'.unreadMarker != 0
       case Some((s, rest)) => sym == s && r'.Rest() == rest && r'.End() == r.End() && r'.insufficient == r.insufficient
  }

  /** Where decoding stands in the loop of jpeg_huff_decode: `goal` is what it will find. */
  ghost predicate Midway(h: Table, r: Reader, code: nat, l: nat, goal: Option<(nat, seq<bool>)>)
  {
    && r.Valid() && Legal(h) && 1 <= l <= 17 && First(h, l) <= code < Pow2(l)
    && (goal.Some? || r.unreadMarker == 0 ==> SerialAt(h, code, l, r.Rest()) == goal)
  }

  lemma MidwayNext(h: Table, r: Reader, code: nat, l: nat, goal: Option<(nat, seq<bool>)>, n: Reader)
    requires Midway(h, r, code, l, goal) && l < 17 && code > MaxCode(h, l)
    requires n.Valid() && n.bitsLeft >= 1 && (|r.Rest()| >= 1 ==> Same(r, n))
    requires (n.unreadMarker == 0 ==> |r.Rest()| >= 1) && (r.unreadMarker != 0 ==> n.unreadMarker != 0)
    ensures Midway(h, n.Drop(1), 2 * code + n.Peek(1), l + 1, goal)
    ensures goal.Some? ==> Same(r, n) && n.Drop(1).End() == r.End()
  {
    hide SerialAt, MaxCode, First;
    SerialStep(h, code, l, r.Rest());
    GetBitsAre(n, 1);
    assert Bin(n.Peek(1), 1) == [n.Peek(1) % 2 == 1] by { ShiftNone(n.Peek(1) / 2); }
    assert Pow2(1) == 2;
    assert n.Rest()[1..] == n.Drop(1).Rest();
  }

  /** Entering the loop of jpeg_huff_decode with one bit. */
  lemma StartAtOne(h: Table, r: Reader, n: Reader)
    requires Legal(h) && r.Valid() && n.Valid() && n.bitsLeft >= 1 && (|r.Rest()| >= 1 ==> Same(r, n))
    requires n.unreadMarker == 0 ==> |r.Rest()| >= 1
    ensures Midway(h, n.Drop(1), n.Peek(1), 1, Serial(h, r.Rest()))
    ensures Serial(h, r.Rest()).Some? ==> Same(r, n)
  {
    hide SerialAt;
    GetBitsAre(n, 1);
    assert Bin(n.Peek(1), 1) == [n.Peek(1) % 2 == 1] by { ShiftNone(n.Peek(1) / 2); }
    assert Pow2(1) == 2;
    assert n.Rest()[1..] == n.Drop(1).Rest();
  }

  /** Entering it after the lookahead table has shown that eight bits are not enough. */
  lemma StartAfterMiss(h: Table, r: Reader, n: Reader, k: nat)
    requires Legal(h) && r.Valid() && 1 <= k <= 15 && k <= r.bitsLeft && Serial(h, Bin(r.Peek(k), k)).None?
    requires n.Valid() && n.bitsLeft >= k + 1 && r.Rest() <= n.Rest() && (|r.Rest()| >= k + 1 ==> Same(r, n))
    requires n.unreadMarker == 0 ==> |r.Rest()| >= k + 1
    ensures Midway(h, n.Drop(k + 1), n.Peek(k + 1), k + 1, Serial(h, r.Rest()))
    ensures Serial(h, r.Rest()).Some? ==> Same(r, n)
  {
    hide SerialAt, Serial, First, Shr, Bin;
    GetBitsAre(r, k);
    GetBitsAre(n, k + 1);
    var x, t, c := r.Peek(k), r.Drop(k).Rest(), n.Peek(k + 1);
    SerialMissesAll(h, x, k, t);
    OneMoreBit(x, t, c, n.Drop(k + 1).Rest(), k, n.Rest());
  }

  /** Bits read k at a time and then k + 1 at a time. */
  lemma OneMoreBit(x: nat, t: seq<bool>, c: nat, rest: seq<bool>, k: nat, b: seq<bool>)
    requires x < Pow2(k) && c < Pow2(k + 1) && b == Bin(c, k + 1) + rest && Bin(x, k) + t <= b
    ensures 2 * x <= c
    ensures b == Bin(x, k) + t ==> t != [] && t[1..] == rest && c == 2 * x + Bit(t[0])
  {
    assert b == Bin(c / 2, k) + ([c % 2 == 1] + rest);
    assert Bin(x, k) == b[..k] == Bin(c / 2, k);
    BinInjective(x, c / 2, k);
    assert b == Bin(x, k) + t ==> t == b[k..] == [c % 2 == 1] + rest;
  }

  lemma SerialMissesAll(h: Table, x: nat, k: nat, t: seq<bool>)
    requires Legal(h) && 1 <= k <= 15 && x < Pow2(k) && Serial(h, Bin(x, k)).None?
    ensures First(h, k + 1) <= 2 * x
    ensures Serial(h, Bin(x, k) + t) == if t == [] then None else SerialAt(h, 2 * x + Bit(t[0]), k + 1, t[1..])
  {
    hide SerialAt, Serial, Bin, Shr;
    assert Bin(x, k) + [] == Bin(x, k);
    assert Bin(x, k - 1) + [] == Bin(x, k - 1);
    SerialStart(h, x, k, []);
    SerialStart(h, x, k, t);
    SerialMisses(h, x, k, t, 1);
  }

  /** What reading part of a code keeps. */
  ghost predicate Keeps(r: Reader, r': Reader, goal: Option<(nat, seq<bool>)>)
    requires r.Valid() && r'.Valid()
  {
    && r'.input == r.input && (r.unreadMarker != 0 ==> r'.unreadMarker != 0) && r'.Future() == r.Future()
    && (r.End().Some? ==> r'.End().Some?)
    && (goal.Some? ==> r'.End() == r.End() && r'.insufficient == r.insufficient)
  }

  /** The body of the loop of jpeg_huff_decode. */
  method NextBit(r: Reader, h: Table, code: nat, l: nat, ghost goal: Option<(nat, seq<bool>)>)
    returns (ok: bool, code': nat, r': Reader)
    requires Midway(h, r, code, l, goal) && l < 17 && code > MaxCode(h, l)
    ensures r.End().Some? || r.unreadMarker != 0 ==> ok
    ensures ok ==> Midway(h, r', code', l + 1, goal) && Keeps(r, r', goal)
  {
    hide SerialAt, Bin, Legal, First, Low, Shr, Destuff, MarkerIn, StubIn;
    var n;
    ok, n := CheckBitBuffer(r, 1);
    if !ok { return false, code, r; }
    MidwayNext(h, r, code, l, goal, n);
    GetBitsAre(n, 1);
    code' := 2 * code;
    code' := code' + n.Peek(1);
    r' := n.Drop(1);
  }

  /** The first fetch of jpeg_huff_decode. */
  method FirstBits(r: Reader, h: Table, minBits: nat) returns (ok: bool, code: nat, r': Reader)
    requires r.Valid() && Legal(h)
    requires minBits == 1 || (minBits == HUFF_LOOKAHEAD + 1 <= r.bitsLeft + 1
                              && Serial(h, Bin(r.Peek(HUFF_LOOKAHEAD), HUFF_LOOKAHEAD)).None?)
    ensures r.End().Some? || r.unreadMarker != 0 ==> ok
    ensures ok ==> Midway(h, r', code, minBits, Serial(h, r.Rest())) && Keeps(r, r', Serial(h, r.Rest()))
  {
    hide Serial, SerialAt, Bin, Legal, First, Low, Shr, Destuff, MarkerIn, StubIn;
    code := 0;
    ok, r' := CheckBitBuffer(r, minBits);
    if !ok { return false, 0, r; }
    if minBits == 1 { StartAtOne(h, r, r'); } else { StartAfterMiss(h, r, r', HUFF_LOOKAHEAD); }
    GetBitsAre(r', minBits);
    code := r'.Peek(minBits);
    r' := r'.Drop(minBits);
  }

  /** jpeg_huff_decode: figure F.16 from length minBits. */
  method SlowDecode(r: Reader, d: DDerived, minBits: nat) returns (ok: bool, sym: nat, r': Reader)
    requires r.Valid() && Decodes(d.pub, d)
    requires minBits == 1 || (minBits == HUFF_LOOKAHEAD + 1 <= r.bitsLeft + 1
                              && Serial(d.pub, Bin(r.Peek(HUFF_LOOKAHEAD), HUFF_LOOKAHEAD)).None?)
    ensures r.End().Some? || r.unreadMarker != 0 ==> ok
    ensures ok ==> Decoded(d.pub, r, sym, r')
  {
    hide Possible, Decoded, Serial, SerialAt, Bin, Legal, First, Before, Low, Shr, Destuff, MarkerIn, StubIn, Lookahead;
    var h, l := d.pub, minBits;
    var code: nat;
    ghost var goal := Serial(h, r.Rest());
    ok, code, r' := FirstBits(r, h, l);
    if !ok { return false, 0, r; }
    Pow2Values();
    while code > d.maxcode[l]
      invariant 1 <= l <= 17 && Midway(h, r', code, l, goal) && Keeps(r, r', goal)
      decreases 17 - l
    {
      assert l < 17;
      ok, code, r' := NextBit(r', h, code, l, goal);
      if !ok { return false, 0, r; }
      l := l + 1;
    }
    CodeFound(h, r, r', code, l);
    if l <= 16 { SymbolIndex(h, code, l); }
    sym := if l > 16 then 0 else h.huffval[code + d.valoffset[l]];
  }

  /** The loop ends at a code, or at the sentinel. */
  lemma CodeFound(h: Table, r: Reader, r': Reader, code: nat, l: nat)
    requires Legal(h) && r.Valid() && Midway(h, r', code, l, Serial(h, r.Rest())) && Keeps(r, r', Serial(h, r.Rest()))
    requires l == 17 || code <= MaxCode(h, l)
    ensures Decoded(h, r, SymbolAt(h, code, l), r')
  {
    hide Possible, Serial, SerialAt, Bin, Legal, First, Before, Low, Shr, Destuff, MarkerIn, StubIn;
    SerialStep(h, code, l, r'.Rest());
    SymbolPossible(h, code, l);
  }

  lemma LookHit(h: Table, r: Reader, x: nat, nb: nat)
    requires Legal(h) && r.Valid() && HUFF_LOOKAHEAD <= r.bitsLeft && x == r.Peek(HUFF_LOOKAHEAD)
    requires nb == Look(h, x).0 != 0
    ensures nb <= HUFF_LOOKAHEAD && Decoded(h, r, Look(h, x).1, r.Drop(nb))
  {
    hide Possible, SerialAt, Bin;
    var b := Bin(x, HUFF_LOOKAHEAD);
    GetBitsAre(r, HUFF_LOOKAHEAD);
    var t := r.Drop(HUFF_LOOKAHEAD).Rest();
    SerialExtends(h, b, t);
    SerialAtSuffix(h, Bit(b[0]), 1, b[1..]);
    SerialAtPossible(h, Bit(b[0]), 1, b[1..]);
    var rest := Serial(h, b).value.1;
    assert rest == b[nb..];
    GetBitsAre(r, nb);
    assert r.Drop(nb).Rest() == r.Rest()[nb..] == rest + t;
  }

  /** HUFF_DECODE.  The lookahead table, the bit-serial loop and their combination near the end of
      the data all give what figure F.16 gives. */
  method HuffDecode(r: Reader, d: DDerived) returns (ok: bool, sym: nat, r': Reader)
    requires r.Valid() && Decodes(d.pub, d)
    ensures r.End().Some? || r.unreadMarker != 0 ==> ok
    ensures ok ==> Decoded(d.pub, r, sym, r')
  {
    hide Possible, SerialAt, Destuff, MarkerIn, StubIn, NextUnit;
    r' := r;
    if r'.bitsLeft < HUFF_LOOKAHEAD {
      ok, r' := FillBitBuffer(r', 0);
      if !ok { return false, 0, r; }
      if r'.bitsLeft < HUFF_LOOKAHEAD {
        ok, sym, r' := SlowDecode(r', d, 1);
        return;
      }
    }
    var look := r'.Peek(HUFF_LOOKAHEAD);
    var nb := d.lookNbits[look];
    if nb != 0 {
      LookHit(d.pub, r', look, nb);
      ok, sym, r' := true, d.lookSym[look], r'.Drop(nb);
    } else {
      ok, sym, r' := SlowDecode(r', d, HUFF_LOOKAHEAD + 1);
    }
  }
}
