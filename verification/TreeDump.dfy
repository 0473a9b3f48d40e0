// Dumping a tree to a stream of tokens in preorder, and reading it back (kd_dump.cpp).
module TreeDump {
  import opened Geometry
  import opened PointSplit
  import opened KdTree
  import opened AnnTree
  import opened Wrappers

  /** The words leaf, split and shrink, and any other. */
  datatype Keyword = KwLeaf | KwSplit | KwShrink | KwOther

  /** What >> reads: a word, an integer or a coordinate. */
  datatype Token = Word(w: Keyword) | Whole(i: int) | Number(x: real)

  // ---------- the format ----------

  /** The tokens of what is dumped, followed by the rest of the stream. */
  function IdxTokens(idx: seq<nat>, rest: seq<Token>): seq<Token> {
    if idx == [] then rest else [Whole(idx[0])] + IdxTokens(idx[1..], rest)
  }

  /** A bounding side, +1 or -1. */
  function SideToken(h: HalfSpace): Token { Whole(if h.upper then -1 else 1) }

  function BoundTokens(bnds: seq<HalfSpace>, rest: seq<Token>): seq<Token> {
    if bnds == [] then rest
    else [Whole(bnds[0].cd)] + ([Number(bnds[0].cv)] + ([SideToken(bnds[0])] + BoundTokens(bnds[1..], rest)))
  }

  /** The entries of a bucket. */
  function Bkt(s: seq<nat>, off: nat, n: nat): seq<nat> {
    if n > 0 && off + n <= |s| then s[off..off + n] else []
  }

  function SplitHead(cd: nat, cv: real, lb: real, hb: real): seq<Token> {
    [Word(KwSplit), Whole(cd), Number(cv), Number(lb), Number(hb)]
  }

  /** A tree in preorder. */
  function Tokens(t: Tree, s: seq<nat>, rest: seq<Token>): seq<Token>
    decreases t
  {
    match t
    case Leaf(off, n) => [Word(KwLeaf), Whole(n)] + IdxTokens(Bkt(s, off, n), rest)
    case Split(cd, cv, lb, hb, lo, hi) => SplitHead(cd, cv, lb, hb) + Tokens(lo, s, Tokens(hi, s, rest))
    case Shrink(bnds, inner, outer) => [Word(KwShrink), Whole(|bnds|)] + BoundTokens(bnds, Tokens(inner, s, Tokens(outer, s, rest)))
  }

  // ---------- reading as a function ----------

  /** n indices, and what follows them. */
  function ReadIdx(toks: seq<Token>, n: nat): (r: Option<(seq<nat>, seq<Token>)>)
    ensures r.Some? ==> |r.value.0| == n && |r.value.1| <= |toks|
  {
    if n == 0 then Some(([], toks))
    else if toks == [] || !toks[0].Whole? || toks[0].i < 0 then None
    else
      match ReadIdx(toks[1..], n - 1)
      case None => None
      case Some(p) => Some(([toks[0].i as nat] + p.0, p.1))
  }

  predicate IsBound(toks: seq<Token>) {
    |toks| >= 3 && toks[0].Whole? && toks[0].i >= 0 && toks[1].Number? && toks[2].Whole? && (toks[2].i == 1 || toks[2].i == -1)
  }

  function ReadBounds(toks: seq<Token>, n: nat): (r: Option<(seq<HalfSpace>, seq<Token>)>)
    ensures r.Some? ==> |r.value.0| == n && |r.value.1| <= |toks|
  {
    if n == 0 then Some(([], toks))
    else if !IsBound(toks) then None
    else
      match ReadBounds(toks[3..], n - 1)
      case None => None
      case Some(p) => Some(([HalfSpace(toks[0].i as nat, toks[1].x, toks[2].i == -1)] + p.0, p.1))
  }

  /** A subtree, the indices it brings, and the tokens after it. */
  datatype Read = Read(t: Tree, idx: seq<nat>, rest: seq<Token>)

  predicate IsSplit(toks: seq<Token>) {
    |toks| >= 5 && toks[0] == Word(KwSplit) && toks[1].Whole? && toks[1].i >= 0 && toks[2].Number? && toks[3].Number? && toks[4].Number?
  }

  /** A word and a count. */
  predicate Counted(toks: seq<Token>, w: Keyword) { |toks| >= 2 && toks[0] == Word(w) && toks[1].Whole? && toks[1].i >= 0 }

  /** annReadTree, with next indices read so far and room for cap in all. */
  function ReadNode(toks: seq<Token>, bd: bool, next: nat, cap: nat): (r: Option<Read>)
    ensures r.Some? ==> |r.value.rest| < |toks| && |r.value.idx| == Size(r.value.t) && (next <= cap ==> next + |r.value.idx| <= cap)
    decreases |toks|, 0
  {
    if Counted(toks, KwLeaf) then
      var n := toks[1].i as nat;
      if n == 0 then Some(Read(TRIVIAL, [], toks[2..]))
      else if next + n > cap then None
      else
        match ReadIdx(toks[2..], n)
        case None => None
        case Some(p) => Some(Read(Leaf(next, n), p.0, p.1))
    else if IsSplit(toks) then
      match ReadTwo(toks[5..], bd, next, cap)
      case None => None
      case Some(p) => Some(Read(Split(toks[1].i as nat, toks[2].x, toks[3].x, toks[4].x, p.a, p.b), p.idx, p.rest))
    else if bd && Counted(toks, KwShrink) then
      match ReadBounds(toks[2..], toks[1].i as nat)
      case None => None
      case Some(b) =>
        match ReadTwo(b.1, bd, next, cap)
        case None => None
        case Some(p) => Some(Read(Shrink(b.0, p.a, p.b), p.idx, p.rest))
    else None
  }

  datatype Pair = Pair(a: Tree, b: Tree, idx: seq<nat>, rest: seq<Token>)

  /** The two subtrees of a node. */
  function ReadTwo(toks: seq<Token>, bd: bool, next: nat, cap: nat): (r: Option<Pair>)
    ensures r.Some? ==> |r.value.rest| < |toks| && |r.value.idx| == Size(r.value.a) + Size(r.value.b)
    ensures r.Some? && next <= cap ==> next + |r.value.idx| <= cap
    decreases |toks|, 1
  {
    match ReadNode(toks, bd, next, cap)
    case None => None
    case Some(a) =>
      match ReadNode(a.rest, bd, next + |a.idx|, cap)
      case None => None
      case Some(b) => Some(Pair(a.t, b.t, a.idx + b.idx, b.rest))
  }

  // ---------- the round trip ----------

  lemma {:induction false} ReadIdxTokens(idx: seq<nat>, rest: seq<Token>)
    ensures ReadIdx(IdxTokens(idx, rest), |idx|) == Some((idx, rest))
  {
    if idx != [] {
      ReadIdxTokens(idx[1..], rest);
      assert IdxTokens(idx, rest)[1..] == IdxTokens(idx[1..], rest);
      assert idx == [idx[0]] + idx[1..];
    }
  }

  lemma {:induction false} ReadBoundTokens(bnds: seq<HalfSpace>, rest: seq<Token>)
    ensures ReadBounds(BoundTokens(bnds, rest), |bnds|) == Some((bnds, rest))
  {
    if bnds != [] {
      hide BoundTokens;
      ReadBoundTokens(bnds[1..], rest);
      BoundTokensNext(bnds, rest);
      var toks := BoundTokens(bnds, rest);
      assert toks[..3][0] == toks[0] && toks[..3][1] == toks[1] && toks[..3][2] == toks[2];
      assert bnds == [bnds[0]] + bnds[1..];
    }
  }

  lemma BoundTokensNext(bnds: seq<HalfSpace>, rest: seq<Token>)
    requires bnds != []
    ensures |BoundTokens(bnds, rest)| >= 3 && BoundTokens(bnds, rest)[3..] == BoundTokens(bnds[1..], rest)
    ensures BoundTokens(bnds, rest)[..3] == [Whole(bnds[0].cd), Number(bnds[0].cv), SideToken(bnds[0])]
  {
  }

  /** The places of the buckets follow one another from off on. */
  predicate Consecutive(t: Tree, off: nat) {
    match t
    case Leaf(o, n) => o == if n == 0 then 0 else off
    case Split(_, _, _, _, lo, hi) => Consecutive(lo, off) && Consecutive(hi, off + Size(lo))
    case Shrink(_, inner, outer) => Consecutive(inner, off) && Consecutive(outer, off + Size(inner))
  }

  lemma {:induction false} BuiltConsecutive(t: Tree, pts: seq<Point>, s: seq<nat>, dim: nat, box: Rect, off: nat)
    requires Built(t, pts, s, dim, box, off)
    ensures Consecutive(t, off)
  {
    hide Built, Bounds, Cut, AllWithin, Contains;
    BuiltCell(t, pts, s, dim, box, off);
    match t {
      case Leaf(_, _) =>
        LeafPlace(t, pts, s, dim, box, off);
      case Split(cd, cv, lb, hb, lo, hi) =>
        SplitParts(t, pts, s, dim, box, off);
        BuiltConsecutive(lo, pts, s, dim, WithSide(box, cd, lb, cv), off);
        BuiltConsecutive(hi, pts, s, dim, WithSide(box, cd, cv, hb), off + Size(lo));
      case Shrink(bnds, inner, outer) =>
        ShrinkParts(t, pts, s, dim, box, off);
        BuiltConsecutive(inner, pts, s, dim, Cut(box, bnds), off);
        BuiltConsecutive(outer, pts, s, dim, box, off + Size(inner));
    }
  }

  lemma LeafPlace(t: Tree, pts: seq<Point>, s: seq<nat>, dim: nat, box: Rect, off: nat)
    requires t.Leaf? && Built(t, pts, s, dim, box, off)
    ensures Consecutive(t, off)
  {
  }

  lemma ReadLeaf(n: nat, body: seq<Token>, bd: bool, next: nat, cap: nat)
    ensures var toks := [Word(KwLeaf), Whole(n)] + body;
      ReadNode(toks, bd, next, cap) ==
      if n == 0 then Some(Read(TRIVIAL, [], body))
      else if next + n > cap then None
      else match ReadIdx(body, n) case None => None case Some(p) => Some(Read(Leaf(next, n), p.0, p.1))
  {
    hide ReadIdx;
    assert ([Word(KwLeaf), Whole(n)] + body)[2..] == body;
  }

  lemma ReadSplit(cd: nat, cv: real, lb: real, hb: real, body: seq<Token>, bd: bool, next: nat, cap: nat)
    ensures ReadNode(SplitHead(cd, cv, lb, hb) + body, bd, next, cap) ==
      match ReadTwo(body, bd, next, cap)
      case None => None
      case Some(p) => Some(Read(Split(cd, cv, lb, hb, p.a, p.b), p.idx, p.rest))
  {
    hide ReadIdx, ReadBounds, ReadTwo;
    assert (SplitHead(cd, cv, lb, hb) + body)[5..] == body;
  }

  lemma ReadShrink(n: nat, body: seq<Token>, next: nat, cap: nat)
    ensures ReadNode([Word(KwShrink), Whole(n)] + body, true, next, cap) ==
      match ReadBounds(body, n)
      case None => None
      case Some(b) =>
        match ReadTwo(b.1, true, next, cap)
        case None => None
        case Some(p) => Some(Read(Shrink(b.0, p.a, p.b), p.idx, p.rest))
  {
    hide ReadIdx, ReadBounds, ReadTwo;
    assert ([Word(KwShrink), Whole(n)] + body)[2..] == body;
  }

  /** A measure of trees. */
  ghost function Height(t: Tree): nat {
    match t
    case Leaf(_, _) => 0
    case Split(_, _, _, _, lo, hi) => 2 + Height(lo) + Height(hi)
    case Shrink(_, inner, outer) => 2 + Height(inner) + Height(outer)
  }

  lemma TwoTokens(lo: Tree, hi: Tree, s: seq<nat>, bd: bool, off: nat, cap: nat, rest: seq<Token>)
    requires Consecutive(lo, off) && Consecutive(hi, off + Size(lo)) && off + Size(lo) + Size(hi) <= |s|
    requires off + Size(lo) + Size(hi) <= cap && (bd || (Plain(lo) && Plain(hi)))
    ensures ReadTwo(Tokens(lo, s, Tokens(hi, s, rest)), bd, off, cap) ==
      Some(Pair(lo, hi, s[off..off + (Size(lo) + Size(hi))], rest))
    decreases Height(lo) + Height(hi) + 1
  {
    hide ReadNode, Tokens, Consecutive, Size, Plain;
    ReadTokens(lo, s, bd, off, cap, Tokens(hi, s, rest));
    ReadTokens(hi, s, bd, off + Size(lo), cap, rest);
    assert s[off..off + Size(lo)] + s[off + Size(lo)..off + Size(lo) + Size(hi)] == s[off..off + (Size(lo) + Size(hi))];
  }

  /** Reading what was dumped gives the same tree and the same indices, and takes just its tokens. */
  lemma {:induction false} ReadTokens(t: Tree, s: seq<nat>, bd: bool, off: nat, cap: nat, rest: seq<Token>)
    requires Consecutive(t, off) && off + Size(t) <= |s| && off + Size(t) <= cap && (bd || Plain(t))
    ensures ReadNode(Tokens(t, s, rest), bd, off, cap) == Some(Read(t, s[off..off + Size(t)], rest))
    decreases Height(t)
  {
    hide ReadNode, ReadTwo, ReadIdx, ReadBounds, IdxTokens, BoundTokens, SplitHead;
    match t {
      case Leaf(o, n) =>
        ReadLeaf(n, IdxTokens(Bkt(s, o, n), rest), bd, off, cap);
        ReadIdxTokens(Bkt(s, o, n), rest);
        NoIdx(rest);
        assert Bkt(s, o, n) == s[off..off + Size(t)];
      case Split(cd, cv, lb, hb, lo, hi) =>
        ReadSplit(cd, cv, lb, hb, Tokens(lo, s, Tokens(hi, s, rest)), bd, off, cap);
        TwoTokens(lo, hi, s, bd, off, cap, rest);
      case Shrink(bnds, inner, outer) =>
        ReadShrink(|bnds|, BoundTokens(bnds, Tokens(inner, s, Tokens(outer, s, rest))), off, cap);
        ReadBoundTokens(bnds, Tokens(inner, s, Tokens(outer, s, rest)));
        TwoTokens(inner, outer, s, bd, off, cap, rest);
    }
  }

  lemma NoIdx(rest: seq<Token>)
    ensures IdxTokens([], rest) == rest
  {
  }

  lemma {:induction false} IdxBack(toks: seq<Token>, n: nat)
    ensures var r := ReadIdx(toks, n); r.Some? ==> toks == IdxTokens(r.value.0, r.value.1)
  {
    if n > 0 && toks != [] {
      IdxBack(toks[1..], n - 1);
      assert toks == [toks[0]] + toks[1..];
    }
  }

  lemma {:induction false} BoundsBack(toks: seq<Token>, n: nat)
    ensures var r := ReadBounds(toks, n); r.Some? ==> toks == BoundTokens(r.value.0, r.value.1)
  {
    if n > 0 && IsBound(toks) {
      BoundsBack(toks[3..], n - 1);
      assert toks == [toks[0]] + ([toks[1]] + ([toks[2]] + toks[3..]));
    }
  }

  /** Dumping what was read gives back the tokens that were read. */
  lemma {:induction false} DumpWhatWasRead(toks: seq<Token>, bd: bool, next: nat, cap: nat, s: seq<nat>)
    requires var r := ReadNode(toks, bd, next, cap); r.Some? && next + |r.value.idx| <= |s| && s[next..next + |r.value.idx|] == r.value.idx
    ensures var r := ReadNode(toks, bd, next, cap); toks == Tokens(r.value.t, s, r.value.rest) && Consecutive(r.value.t, next)
    decreases |toks|, 0
  {
    hide ReadNode, ReadTwo, ReadIdx, ReadBounds, IdxTokens, BoundTokens, SplitHead;
    NodeTag(toks, bd, next, cap);
    if Counted(toks, KwLeaf) {
      var n := toks[1].i as nat;
      NoIdx(toks[2..]);
      assert toks == [Word(KwLeaf), Whole(n)] + toks[2..];
      ReadLeaf(n, toks[2..], bd, next, cap);
      IdxBack(toks[2..], n);
    } else if IsSplit(toks) {
      HeadOf(toks);
      ReadSplit(toks[1].i, toks[2].x, toks[3].x, toks[4].x, toks[5..], bd, next, cap);
      TwoBack(toks[5..], bd, next, cap, s);
    } else {
      var n := toks[1].i as nat;
      assert toks == [Word(KwShrink), Whole(n)] + toks[2..];
      ReadShrink(n, toks[2..], next, cap);
      BoundsBack(toks[2..], n);
      TwoBack(ReadBounds(toks[2..], n).value.1, bd, next, cap, s);
    }
  }

  lemma TwoBack(toks: seq<Token>, bd: bool, next: nat, cap: nat, s: seq<nat>)
    requires var r := ReadTwo(toks, bd, next, cap); r.Some? && next + |r.value.idx| <= |s| && s[next..next + |r.value.idx|] == r.value.idx
    ensures var p := ReadTwo(toks, bd, next, cap).value;
      toks == Tokens(p.a, s, Tokens(p.b, s, p.rest)) && Consecutive(p.a, next) && Consecutive(p.b, next + Size(p.a))
    decreases |toks|, 1
  {
    hide ReadNode, Tokens, Consecutive, Size;
    var a := ReadNode(toks, bd, next, cap).value;
    var b := ReadNode(a.rest, bd, next + |a.idx|, cap).value;
    SliceParts(s, next, a.idx, b.idx);
    DumpWhatWasRead(toks, bd, next, cap, s);
    DumpWhatWasRead(a.rest, bd, next + |a.idx|, cap, s);
  }

  lemma HeadOf(toks: seq<Token>)
    requires IsSplit(toks)
    ensures toks == SplitHead(toks[1].i, toks[2].x, toks[3].x, toks[4].x) + toks[5..]
  {
  }

  lemma NodeTag(toks: seq<Token>, bd: bool, next: nat, cap: nat)
    requires ReadNode(toks, bd, next, cap).Some?
    ensures Counted(toks, KwLeaf) || IsSplit(toks) || (bd && Counted(toks, KwShrink))
  {
    hide ReadIdx, ReadBounds;
  }

  lemma SliceParts(s: seq<nat>, next: nat, a: seq<nat>, b: seq<nat>)
    requires next + |a + b| <= |s| && s[next..next + |a + b|] == a + b
    ensures s[next..next + |a|] == a && s[next + |a|..next + |a| + |b|] == b
  {
    assert s[next..next + |a|] == s[next..next + |a + b|][..|a|];
    assert s[next + |a|..next + |a| + |b|] == s[next..next + |a + b|][|a|..];
  }

  // ---------- the methods ----------

  class OutStream {
    var toks: seq<Token>

    constructor ()
      ensures toks == []
    {
      toks := [];
    }

    method Put(t: Token)
      modifies this
      ensures toks == old(toks) + [t]
    {
      toks := toks + [t];
    }
  }

  lemma {:induction false} IdxAppend(idx: seq<nat>, i: nat)
    requires i < |idx|
    ensures IdxTokens(idx[..i + 1], []) == IdxTokens(idx[..i], []) + [Whole(idx[i])]
  {
    if i > 0 {
      IdxAppend(idx[1..], i - 1);
      assert idx[1..][..i] == idx[..i + 1][1..] && idx[1..][..i - 1] == idx[..i][1..] && idx[1..][i - 1] == idx[i];
    }
  }

  lemma {:induction false} BoundAppend(bnds: seq<HalfSpace>, i: nat)
    requires i < |bnds|
    ensures BoundTokens(bnds[..i + 1], []) == BoundTokens(bnds[..i], []) + [Whole(bnds[i].cd), Number(bnds[i].cv), SideToken(bnds[i])]
  {
    if i > 0 {
      BoundAppend(bnds[1..], i - 1);
      assert bnds[1..][..i] == bnds[..i + 1][1..] && bnds[1..][..i - 1] == bnds[..i][1..] && bnds[1..][i - 1] == bnds[i];
    }
  }

  lemma {:induction false} IdxRest(idx: seq<nat>, rest: seq<Token>)
    ensures IdxTokens(idx, rest) == IdxTokens(idx, []) + rest
  {
    if idx != [] { IdxRest(idx[1..], rest); }
  }

  lemma {:induction false} BoundRest(bnds: seq<HalfSpace>, rest: seq<Token>)
    ensures BoundTokens(bnds, rest) == BoundTokens(bnds, []) + rest
  {
    if bnds != [] { BoundRest(bnds[1..], rest); }
  }

  /** What follows a tree in the stream is just appended. */
  lemma {:induction false} TokensRest(t: Tree, s: seq<nat>, rest: seq<Token>)
    ensures Tokens(t, s, rest) == Tokens(t, s, []) + rest
    decreases t
  {
    hide IdxTokens, BoundTokens, SplitHead;
    match t {
      case Leaf(off, n) =>
        IdxRest(Bkt(s, off, n), rest);
      case Split(_, _, _, _, lo, hi) =>
        TokensRest(hi, s, rest);
        TokensRest(lo, s, Tokens(hi, s, rest));
        TokensRest(lo, s, Tokens(hi, s, []));
      case Shrink(bnds, inner, outer) =>
        TokensRest(outer, s, rest);
        TokensRest(inner, s, Tokens(outer, s, rest));
        TokensRest(inner, s, Tokens(outer, s, []));
        BoundRest(bnds, Tokens(inner, s, Tokens(outer, s, rest)));
        BoundRest(bnds, Tokens(inner, s, Tokens(outer, s, [])));
    }
  }

  /** The three tokens of every side. */
  function SidesListed(bnds: seq<HalfSpace>): (toks: seq<Token>)
    ensures |toks| == 3 * |bnds|
    ensures forall i :: 0 <= i < |bnds| ==>
      toks[3 * i] == Whole(bnds[i].cd) && toks[3 * i + 1] == Number(bnds[i].cv) && toks[3 * i + 2] == Whole(if bnds[i].upper then -1 else 1)
  {
    if bnds == [] then []
    else
      var h := bnds[|bnds| - 1];
      SidesListed(bnds[..|bnds| - 1]) + [Whole(h.cd), Number(h.cv), Whole(if h.upper then -1 else 1)]
  }

  lemma {:induction false} SidesAre(bnds: seq<HalfSpace>)
    ensures BoundTokens(bnds, []) == SidesListed(bnds)
  {
    if bnds != [] {
      var n := |bnds| - 1;
      SidesAre(bnds[..n]);
      BoundAppend(bnds, n);
      assert bnds[..n + 1] == bnds;
    }
  }

  lemma {:induction false} IndicesAre(idx: seq<nat>)
    ensures IdxTokens(idx, []) == seq(|idx|, i requires 0 <= i < |idx| => Whole(idx[i]))
  {
    if idx != [] {
      var n := |idx| - 1;
      IndicesAre(idx[..n]);
      IdxAppend(idx, n);
      assert idx[..n + 1] == idx;
    }
  }

  lemma LeafFormat(off: nat, n: nat, s: seq<nat>)
    requires off + n <= |s|
    ensures Tokens(Leaf(off, n), s, []) == [Word(KwLeaf), Whole(n)] + seq(n, i requires 0 <= i < n => Whole(s[off + i]))
  {
    hide IdxTokens;
    var idx := Bkt(s, off, n);
    IndicesAre(idx);
    assert seq(n, i requires 0 <= i < n => Whole(idx[i])) == seq(n, i requires 0 <= i < n => Whole(s[off + i]));
  }

  lemma SplitFormat(t: Tree, s: seq<nat>)
    requires t.Split?
    ensures var head := [Word(KwSplit), Whole(t.cd), Number(t.cv), Number(t.lb), Number(t.hb)];
      Tokens(t, s, []) == head + Tokens(t.lo, s, []) + Tokens(t.hi, s, [])
  {
    hide IdxTokens, BoundTokens;
    TokensRest(t.lo, s, Tokens(t.hi, s, []));
    assert Tokens(t, s, []) == SplitHead(t.cd, t.cv, t.lb, t.hb) + Tokens(t.lo, s, Tokens(t.hi, s, []));
  }

  lemma ShrinkFormat(t: Tree, s: seq<nat>)
    requires t.Shrink?
    ensures var head := [Word(KwShrink), Whole(|t.bnds|)] + SidesListed(t.bnds);
      Tokens(t, s, []) == head + Tokens(t.inner, s, []) + Tokens(t.outer, s, [])
  {
    hide IdxTokens, BoundTokens, SidesListed;
    var both := Tokens(t.inner, s, Tokens(t.outer, s, []));
    TokensRest(t.inner, s, Tokens(t.outer, s, []));
    BoundRest(t.bnds, both);
    SidesAre(t.bnds);
    assert Tokens(t, s, []) == [Word(KwShrink), Whole(|t.bnds|)] + BoundTokens(t.bnds, both);
  }

  /** A tree is dumped in this format: a leaf as its count and its indices, a cut as its dimension, its place and the
      bounds of its cell before the lower and the upper part, a shrinking node as its sides before the inner and the
      outer part. */
  ghost predicate Formatted(toks: seq<Token>, t: Tree, s: seq<nat>)
    decreases t
  {
    match t
    case Leaf(off, n) => off + n <= |s| ==> toks == [Word(KwLeaf), Whole(n)] + seq(n, i requires 0 <= i < n => Whole(s[off + i]))
    case Split(cd, cv, lb, hb, lo, hi) =>
      exists a, b :: Formatted(a, lo, s) && Formatted(b, hi, s) && toks == [Word(KwSplit), Whole(cd), Number(cv), Number(lb), Number(hb)] + a + b
    case Shrink(bnds, inner, outer) =>
      exists a, b :: Formatted(a, inner, s) && Formatted(b, outer, s) && toks == [Word(KwShrink), Whole(|bnds|)] + SidesListed(bnds) + a + b
  }

  lemma {:induction false} Format(t: Tree, s: seq<nat>)
    ensures Formatted(Tokens(t, s, []), t, s)
    decreases t
  {
    hide Tokens, SidesListed;
    match t {
      case Leaf(off, n) =>
        if off + n <= |s| { LeafFormat(off, n, s); }
      case Split(_, _, _, _, lo, hi) =>
        SplitFormat(t, s);
        Format(lo, s);
        Format(hi, s);
      case Shrink(_, inner, outer) =>
        ShrinkFormat(t, s);
        Format(inner, s);
        Format(outer, s);
    }
  }

  /** dump, by the kind of node. */
  method DumpNode(t: Tree, pidx: array<nat>, ghost off: nat, out: OutStream)
    requires Consecutive(t, off) && off + Size(t) <= pidx.Length
    modifies out
    ensures out.toks == old(out.toks) + Tokens(t, pidx[..], []) && Formatted(Tokens(t, pidx[..], []), t, pidx[..])
    decreases t
  {
    hide Tokens, Consecutive, Size, BoundTokens, Formatted;
    ghost var s := pidx[..];
    Format(t, s);
    Unfold(t, s, off);
    match t {
      case Leaf(_, _) =>
        DumpLeaf(t, pidx, off, out);
      case Split(cd, cv, lb, hb, lo, hi) =>
        out.Put(Word(KwSplit));
        out.Put(Whole(cd));
        out.Put(Number(cv));
        out.Put(Number(lb));
        out.Put(Number(hb));
        DumpNode(lo, pidx, off, out);
        DumpNode(hi, pidx, off + Size(lo), out);
        TokensRest(lo, s, Tokens(hi, s, []));
      case Shrink(bnds, inner, outer) =>
        out.Put(Word(KwShrink));
        out.Put(Whole(|bnds|));
        DumpBounds(bnds, out);
        DumpNode(inner, pidx, off, out);
        DumpNode(outer, pidx, off + Size(inner), out);
        TokensRest(inner, s, Tokens(outer, s, []));
        BoundRest(bnds, Tokens(inner, s, Tokens(outer, s, [])));
    }
  }

  /** ANNkd_leaf::dump */
  method DumpLeaf(t: Tree, pidx: array<nat>, ghost off: nat, out: OutStream)
    requires t.Leaf? && Consecutive(t, off) && off + Size(t) <= pidx.Length
    modifies out
    ensures out.toks == old(out.toks) + Tokens(t, pidx[..], [])
  {
    hide IdxTokens;
    out.Put(Word(KwLeaf));
    out.Put(Whole(t.n));
    NoIdx([]);
    ghost var idx := Bkt(pidx[..], t.off, t.n);
    for j := 0 to t.n
      invariant out.toks == old(out.toks) + [Word(KwLeaf), Whole(t.n)] + IdxTokens(idx[..j], [])
    {
      IdxAppend(idx, j);
      out.Put(Whole(pidx[t.off + j]));
    }
    assert idx[..t.n] == idx;
  }

  method DumpBounds(bnds: seq<HalfSpace>, out: OutStream)
    modifies out
    ensures out.toks == old(out.toks) + BoundTokens(bnds, [])
  {
    assert BoundTokens([], []) == [];
    hide BoundTokens;
    for j := 0 to |bnds|
      invariant out.toks == old(out.toks) + BoundTokens(bnds[..j], [])
    {
      BoundAppend(bnds, j);
      out.Put(Whole(bnds[j].cd));
      out.Put(Number(bnds[j].cv));
      out.Put(SideToken(bnds[j]));
    }
    assert bnds[..|bnds|] == bnds;
  }

  /** The parts of a tree and of its tokens. */
  lemma Unfold(t: Tree, s: seq<nat>, off: nat)
    requires Consecutive(t, off) && off + Size(t) <= |s|
    ensures t.Leaf? ==> |Bkt(s, t.off, t.n)| == t.n && (t.n > 0 ==> t.off + t.n <= |s| && Bkt(s, t.off, t.n) == s[t.off..t.off + t.n])
    ensures t.Leaf? ==> Tokens(t, s, []) == [Word(KwLeaf), Whole(t.n)] + IdxTokens(Bkt(s, t.off, t.n), [])
    ensures t.Split? ==> Tokens(t, s, []) == SplitHead(t.cd, t.cv, t.lb, t.hb) + Tokens(t.lo, s, Tokens(t.hi, s, []))
    ensures t.Split? ==> Consecutive(t.lo, off) && Consecutive(t.hi, off + Size(t.lo)) && Size(t) == Size(t.lo) + Size(t.hi)
    ensures t.Shrink? ==> Consecutive(t.inner, off) && Consecutive(t.outer, off + Size(t.inner)) && Size(t) == Size(t.inner) + Size(t.outer)
    ensures t.Shrink? ==>
      Tokens(t, s, []) == [Word(KwShrink), Whole(|t.bnds|)] + BoundTokens(t.bnds, Tokens(t.inner, s, Tokens(t.outer, s, [])))
  {
  }

  class InStream {
    var toks: seq<Token>

    constructor (toks: seq<Token>)
      ensures this.toks == toks
    {
      this.toks := toks;
    }
  }

  /** s with idx written from place next on. */
  function Placed(s: seq<nat>, next: nat, idx: seq<nat>): seq<nat>
    requires next + |idx| <= |s|
  {
    s[..next] + idx + s[next + |idx|..]
  }

  lemma PlacedTwice(s: seq<nat>, next: nat, a: seq<nat>, b: seq<nat>)
    requires next + |a| + |b| <= |s|
    ensures Placed(Placed(s, next, a), next + |a|, b) == Placed(s, next, a + b)
  {
  }

  /** What is read after some indices. */
  function After(got: seq<nat>, r: Option<(seq<nat>, seq<Token>)>): Option<(seq<nat>, seq<Token>)> {
    match r
    case None => None
    case Some(p) => Some((got + p.0, p.1))
  }

  lemma ReadIdxNext(got: seq<nat>, toks: seq<Token>, n: nat)
    requires n > 0
    ensures After(got, ReadIdx(toks, n)) ==
      if toks == [] || !toks[0].Whole? || toks[0].i < 0 then None else After(got + [toks[0].i as nat], ReadIdx(toks[1..], n - 1))
  {
    if toks != [] && toks[0].Whole? && toks[0].i >= 0 && ReadIdx(toks[1..], n - 1).Some? {
      var p := ReadIdx(toks[1..], n - 1).value;
      assert got + ([toks[0].i as nat] + p.0) == (got + [toks[0].i as nat]) + p.0;
    }
  }

  /** The indices of a bucket go to the next places. */
  method ReadBucket(inp: InStream, pidx: array<nat>, next: nat, n: nat) returns (ok: bool)
    requires next + n <= pidx.Length
    modifies inp, pidx
    ensures match ReadIdx(old(inp.toks), n)
      case None => !ok
      case Some(p) => ok && inp.toks == p.1 && pidx[..] == Placed(old(pidx[..]), next, p.0)
  {
    hide ReadIdx;
    ghost var got: seq<nat>, s := [], pidx[..];
    for i := 0 to n
      invariant After(got, ReadIdx(inp.toks, n - i)) == After([], ReadIdx(old(inp.toks), n))
      invariant |got| == i && pidx[..] == Placed(s, next, got)
    {
      ReadIdxNext(got, inp.toks, n - i);
      if inp.toks == [] || !inp.toks[0].Whole? || inp.toks[0].i < 0 { return false; }
      ghost var was := pidx[..];
      got := got + [inp.toks[0].i as nat];
      pidx[next + i] := inp.toks[0].i;
      inp.toks := inp.toks[1..];
      assert pidx[..] == was[next + i := got[i]];
    }
    ReadNoIdx(inp.toks);
    ghost var r := ReadIdx(old(inp.toks), n);
    assert got + [] == got && (r.Some? ==> [] + r.value.0 == r.value.0);
    ok := true;
  }

  lemma ReadNoIdx(toks: seq<Token>)
    ensures ReadIdx(toks, 0) == Some(([], toks))
  {
  }

  /** annReadTree.  It fails where the source aborts or would go on with a value that it could not read. */
  method ReadTree(inp: InStream, bd: bool, pidx: array<nat>, next: nat) returns (r: Option<Tree>, next': nat)
    requires next <= pidx.Length
    modifies inp, pidx
    ensures match ReadNode(old(inp.toks), bd, next, pidx.Length)
      case None => r == None
      case Some(rd) =>
        r == Some(rd.t) && inp.toks == rd.rest && next' == next + |rd.idx| && pidx[..] == Placed(old(pidx[..]), next, rd.idx)
    decreases |inp.toks|, 0
  {
    hide ReadIdx, ReadBounds, ReadTwo;
    ghost var toks, s := inp.toks, pidx[..];
    var now := inp.toks;
    next', r := next, None;
    if Counted(now, KwLeaf) {
      var n := now[1].i;
      inp.toks := now[2..];
      if n == 0 {
        r := Some(TRIVIAL);
      } else if next + n <= pidx.Length {
        var ok := ReadBucket(inp, pidx, next, n);
        if ok { r, next' := Some(Leaf(next, n)), next + n; }
      }
    } else if IsSplit(now) {
      inp.toks := now[5..];
      var lo, hi;
      lo, hi, next' := ReadChildren(inp, bd, pidx, next);
      if lo.Some? && hi.Some? { r := Some(Split(now[1].i, now[2].x, now[3].x, now[4].x, lo.value, hi.value)); }
    } else if bd && Counted(now, KwShrink) {
      inp.toks := now[2..];
      var bnds := ReadSides(inp, now[1].i);
      if bnds.Some? {
        var inner, outer;
        inner, outer, next' := ReadChildren(inp, bd, pidx, next);
        if inner.Some? && outer.Some? { r := Some(Shrink(bnds.value, inner.value, outer.value)); }
      }
    }
  }

  /** The two children of a node, in order. */
  method ReadChildren(inp: InStream, bd: bool, pidx: array<nat>, next: nat) returns (a: Option<Tree>, b: Option<Tree>, next': nat)
    requires next <= pidx.Length
    modifies inp, pidx
    ensures match ReadTwo(old(inp.toks), bd, next, pidx.Length)
      case None => a == None || b == None
      case Some(p) =>
        && a == Some(p.a) && b == Some(p.b) && inp.toks == p.rest && next' == next + |p.idx|
        && pidx[..] == Placed(old(pidx[..]), next, p.idx)
    decreases |inp.toks|, 1
  {
    hide ReadNode, Placed;
    ghost var toks, s := inp.toks, pidx[..];
    b := None;
    a, next' := ReadTree(inp, bd, pidx, next);
    if a.Some? {
      ghost var ra := ReadNode(toks, bd, next, pidx.Length).value;
      b, next' := ReadTree(inp, bd, pidx, next');
      if b.Some? {
        ghost var rb := ReadNode(ra.rest, bd, next + |ra.idx|, pidx.Length).value;
        PlacedTwice(s, next, ra.idx, rb.idx);
      }
    }
  }

  /** The sides of a shrinking node. */
  method ReadSides(inp: InStream, n: nat) returns (bnds: Option<seq<HalfSpace>>)
    modifies inp
    ensures match ReadBounds(old(inp.toks), n)
      case None => bnds == None
      case Some(p) => bnds == Some(p.0) && inp.toks == p.1
  {
    hide ReadBounds;
    var got: seq<HalfSpace> := [];
    for i := 0 to n
      invariant AfterSides(got, ReadBounds(inp.toks, n - i)) == AfterSides([], ReadBounds(old(inp.toks), n)) && |got| == i
    {
      ReadBoundsNext(got, inp.toks, n - i);
      var now := inp.toks;
      if !IsBound(now) { return None; }
      got := got + [HalfSpace(now[0].i, now[1].x, now[2].i == -1)];
      inp.toks := now[3..];
    }
    ReadNoBounds(inp.toks);
    ghost var r := ReadBounds(old(inp.toks), n);
    assert got + [] == got && (r.Some? ==> [] + r.value.0 == r.value.0);
    bnds := Some(got);
  }

  function AfterSides(got: seq<HalfSpace>, r: Option<(seq<HalfSpace>, seq<Token>)>): Option<(seq<HalfSpace>, seq<Token>)> {
    match r
    case None => None
    case Some(p) => Some((got + p.0, p.1))
  }

  lemma ReadBoundsNext(got: seq<HalfSpace>, toks: seq<Token>, n: nat)
    requires n > 0
    ensures AfterSides(got, ReadBounds(toks, n)) ==
      if !IsBound(toks) then None
      else AfterSides(got + [HalfSpace(toks[0].i as nat, toks[1].x, toks[2].i == -1)], ReadBounds(toks[3..], n - 1))
  {
    if IsBound(toks) && ReadBounds(toks[3..], n - 1).Some? {
      var p, h := ReadBounds(toks[3..], n - 1).value, HalfSpace(toks[0].i as nat, toks[1].x, toks[2].i == -1);
      assert got + ([h] + p.0) == (got + [h]) + p.0;
    }
  }

  lemma ReadNoBounds(toks: seq<Token>)
    ensures ReadBounds(toks, 0) == Some(([], toks))
  {
  }

  /** Loading the dump of a tree into an array of its size gives the same tree and the same index array, and
      reads to the end of the dump; as many points have been read as the tree has, which the loader checks. */
  method Reload(t: ANNtree, bd: bool) returns (root: Option<Tree>, pidx: array<nat>, next: nat, left: seq<Token>)
    requires t.Valid() && t.nPts > 0 && (bd || Plain(t.root.value))
    ensures fresh(pidx) && root == t.root && pidx[..] == t.pidx[..] && next == t.nPts && left == []
  {
    hide Tokens, ReadNode, Built, Fit;
    BuiltConsecutive(t.root.value, t.pts, t.pidx[..], t.dim, t.bndBox, 0);
    var out := new OutStream();
    DumpNode(t.root.value, t.pidx, 0, out);
    assert out.toks == Tokens(t.root.value, t.pidx[..], []);
    var inp := new InStream(out.toks);
    pidx := new nat[t.nPts](_ => 0);
    ReadTokens(t.root.value, t.pidx[..], bd, 0, t.nPts, []);
    assert t.pidx[0..t.nPts] == t.pidx[..];
    ghost var was := pidx[..];
    root, next := ReadTree(inp, bd, pidx, 0);
    assert Placed(was, 0, t.pidx[..]) == t.pidx[..];
    left := inp.toks;
  }
}
