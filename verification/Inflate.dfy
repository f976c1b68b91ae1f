/** The DEFLATE block decoder of stb_image: a 32-bit bit buffer over a byte string, Huffman decoding
    by table and by search, and LZ77 copies into a growing output buffer. */
module Inflate {
  import opened Bits
  import opened ZHuffman

  const UINT_MAX := 0xFFFF_FFFF

  // ----- base lengths, distances and extra bits: RFC 1951, section 3.2.5 -----

  datatype Tables = Tables(lengthBase: seq<nat>, lengthExtra: seq<nat>, distBase: seq<nat>, distExtra: seq<nat>)
  {
    /** What the decoder relies on: length symbols 257..285 and distance codes 0..29 are covered. */
    predicate Sane() {
      && |lengthBase| >= 29 && |lengthExtra| >= 29 && |distBase| >= 30 && |distExtra| >= 30
      && (forall i :: 0 <= i < 29 ==> lengthBase[i] >= 3 && lengthExtra[i] <= 13)
      && (forall i :: 0 <= i < 30 ==> distBase[i] >= 1 && distExtra[i] <= 13)
    }

    /** Length symbol 257 + i stands for the 2^((i - 4) / 4) lengths that follow those of the symbol
        before it, for a single one if i is below eight; the first length is 3, and 258 has a symbol
        of its own. */
    predicate LengthCode(i: nat)
      requires Sane() && i < 28
    {
      && lengthBase[0] == 3 && lengthBase[28] == 258 && lengthExtra[28] == 0
      && lengthExtra[i] == (if i < 8 then 0 else (i - 4) / 4)
      && (i < 27 ==> lengthBase[i + 1] == lengthBase[i] + Pow2(lengthExtra[i]))
    }

    /** Distance code i stands for the 2^(i / 2 - 1) distances that follow those of the code before it,
        for a single one if i is below two; they run from 1 to 32768. */
    predicate DistanceCode(i: nat)
      requires Sane() && i < 30
    {
      && distBase[0] == 1
      && distExtra[i] == (if i < 2 then 0 else i / 2 - 1)
      && (if i < 29 then distBase[i + 1] else 32769) == distBase[i] + Pow2(distExtra[i])
    }

    predicate Standard()
      requires Sane()
    {
      (forall i :: 0 <= i < 28 ==> LengthCode(i)) && forall i :: 0 <= i < 30 ==> DistanceCode(i)
    }
  }

  const DEFLATE := Tables(
    [ 3, 4, 5, 6, 7, 8, 9, 10, 11, 13,
      15, 17, 19, 23, 27, 31, 35, 43, 51, 59,
      67, 83, 99, 115, 131, 163, 195, 227, 258, 0, 0],
    [ 0, 0, 0, 0, 0, 0, 0, 0, 1, 1, 1, 1, 2, 2, 2, 2, 3, 3, 3, 3, 4, 4, 4, 4, 5, 5, 5, 5, 0, 0, 0],
    [ 1, 2, 3, 4, 5, 7, 9, 13, 17, 25, 33, 49, 65, 97, 129, 193,
      257, 385, 513, 769, 1025, 1537, 2049, 3073, 4097, 6145, 8193, 12289, 16385, 24577, 0, 0],
    [ 0, 0, 0, 0, 1, 1, 2, 2, 3, 3, 4, 4, 5, 5, 6, 6, 7, 7, 8, 8, 9, 9, 10, 10, 11, 11, 12, 12, 13, 13, 0, 0])

  lemma DeflateSane()
    ensures DEFLATE.Sane()
  {
    BasesSane();
    ExtrasSane();
  }

  lemma BasesSane()
    ensures |DEFLATE.lengthBase| == 31 && |DEFLATE.distBase| == 32
    ensures forall i :: 0 <= i < 29 ==> DEFLATE.lengthBase[i] >= 3
    ensures forall i :: 0 <= i < 30 ==> DEFLATE.distBase[i] >= 1
  {
    LengthBaseSane();
  }

  lemma LengthBaseSane()
    ensures forall i :: 0 <= i < 29 ==> DEFLATE.lengthBase[i] >= 3
  {
  }

  lemma ExtrasSane()
    ensures |DEFLATE.lengthExtra| == 31 && |DEFLATE.distExtra| == 32
    ensures forall i :: 0 <= i < 29 ==> DEFLATE.lengthExtra[i] <= 13
    ensures forall i :: 0 <= i < 30 ==> DEFLATE.distExtra[i] <= 13
  {
    LengthExtraSane();
  }

  lemma LengthExtraSane()
    ensures |DEFLATE.lengthExtra| == 31 && forall i :: 0 <= i < 29 ==> DEFLATE.lengthExtra[i] <= 13
  {
  }

  // Section 3.2.5 of RFC 1951 in numbers.

  /** The tables are those of the standard. */
  lemma DeflateStandard()
    ensures DEFLATE.Sane() && DEFLATE.Standard()
  {
    DeflateSane();
    forall i | 0 <= i < 28 ensures DEFLATE.LengthCode(i) { LengthCodes(i); }
    forall i | 0 <= i < 30 ensures DEFLATE.DistanceCode(i) { DistanceCodes(i); }
  }

  lemma LengthCodes(i: nat)
    requires i < 28
    ensures DEFLATE.lengthBase[0] == 3
    ensures DEFLATE.lengthExtra[i] == if i < 8 then 0 else (i - 4) / 4
    ensures i < 27 ==> DEFLATE.lengthBase[i + 1] == DEFLATE.lengthBase[i] + Pow2(DEFLATE.lengthExtra[i])
    ensures DEFLATE.lengthBase[28] == 258 && DEFLATE.lengthExtra[28] == 0
  {
    SmallPowers();
    LengthExtras(i);
    if i < 27 { LengthBases(i); }
    LastLength();
  }

  lemma LengthExtras(i: nat)
    requires i < 28
    ensures DEFLATE.lengthExtra[i] == if i < 8 then 0 else (i - 4) / 4
  {
  }

  lemma LengthBases(i: nat)
    requires i < 27
    ensures DEFLATE.lengthBase[i + 1] - DEFLATE.lengthBase[i]
         == if i < 8 then 1 else if i < 12 then 2 else if i < 16 then 4 else if i < 20 then 8 else if i < 24 then 16 else 32
  {
    if i < 14 { ShortBases(i); } else { LongBases(i); }
    LastLength();
  }

  lemma ShortBases(i: nat)
    requires i < 14
    ensures DEFLATE.lengthBase[i + 1] - DEFLATE.lengthBase[i] == if i < 8 then 1 else if i < 12 then 2 else 4
  {
  }

  lemma LongBases(i: nat)
    requires 14 <= i < 27
    ensures DEFLATE.lengthBase[i + 1] - DEFLATE.lengthBase[i]
         == if i < 16 then 4 else if i < 20 then 8 else if i < 24 then 16 else 32
  {
  }

  lemma LastLength()
    ensures |DEFLATE.lengthBase| == |DEFLATE.lengthExtra| == 31
    ensures DEFLATE.lengthBase[0] == 3 && DEFLATE.lengthBase[28] == 258 && DEFLATE.lengthExtra[28] == 0
  {
  }

  lemma DistanceCodes(i: nat)
    requires i < 30
    ensures DEFLATE.distBase[0] == 1
    ensures DEFLATE.distExtra[i] == if i < 2 then 0 else i / 2 - 1
    ensures (if i < 29 then DEFLATE.distBase[i + 1] else 32769) == DEFLATE.distBase[i] + Pow2(DEFLATE.distExtra[i])
  {
    SmallPowers();
    DistanceExtras(i);
    if i < 16 { NearBases(i); } else { FarBases(i); }
    FirstDistance();
  }

  lemma DistanceExtras(i: nat)
    requires i < 30
    ensures DEFLATE.distExtra[i] == if i < 2 then 0 else i / 2 - 1
  {
  }

  lemma FirstDistance()
    ensures DEFLATE.distBase[0] == 1
  {
  }

  lemma NearBases(i: nat)
    requires i < 16
    ensures DEFLATE.distBase[i + 1] - DEFLATE.distBase[i]
         == if i < 4 then 1 else if i < 6 then 2 else if i < 8 then 4 else if i < 10 then 8 else if i < 12 then 16 else if i < 14 then 32 else 64
  {
  }

  lemma FarBases(i: nat)
    requires 16 <= i < 30
    ensures (if i < 29 then DEFLATE.distBase[i + 1] else 32769) - DEFLATE.distBase[i]
         == if i < 18 then 128 else if i < 20 then 256 else if i < 22 then 512 else if i < 24 then 1024
            else if i < 26 then 2048 else if i < 28 then 4096 else 8192
  {
  }

  lemma SmallPowers()
    ensures Pow2(0) == 1 && Pow2(1) == 2 && Pow2(2) == 4 && Pow2(3) == 8 && Pow2(4) == 16 && Pow2(5) == 32 && Pow2(6) == 64
    ensures Pow2(7) == 128 && Pow2(8) == 256 && Pow2(9) == 512 && Pow2(10) == 1024 && Pow2(11) == 2048 && Pow2(12) == 4096
    ensures Pow2(13) == 8192
  {
    assert Pow2(3) == 8 && Pow2(6) == 64 && Pow2(9) == 512 && Pow2(11) == 2048;
  }

  /** The code lengths of a block's two alphabets, and the tables. */
  datatype Coding = Coding(ls: seq<nat>, ds: seq<nat>, tab: Tables)
  {
    predicate Good() {
      Lengths(ls) && Fits(ls, 15) && Lengths(ds) && Fits(ds, 15) && tab.Sane()
    }
  }

  // ----- writing a block: the reference encoder -----

  /** Symbols 286 and 287 and distance codes 30 and 31 never occur in DEFLATE data. */
  datatype Token =
    | Literal(b: nat)
    | Match(lsym: nat, lextra: nat, dsym: nat, dextra: nat)
  {
    predicate Formed(tab: Tables)
      requires tab.Sane()
    {
      match this
      case Literal(b) => b < 256
      case Match(l, le, d, de) =>
        257 <= l < 286 && le < Pow2(tab.lengthExtra[l - 257]) && d < 30 && de < Pow2(tab.distExtra[d])
    }

    predicate Codable(c: Coding)
      requires c.tab.Sane()
    {
      Formed(c.tab) && HasCode(c.ls, Symbol()) && (Match? ==> HasCode(c.ds, dsym))
    }

    function Symbol(): nat {
      if Literal? then b else lsym
    }

    function Len(tab: Tables): nat
      requires tab.Sane() && Match? && Formed(tab)
    {
      tab.lengthBase[lsym - 257] + lextra
    }

    function Dist(tab: Tables): (d: nat)
      requires tab.Sane() && Match? && Formed(tab)
      ensures d >= 1
    {
      tab.distBase[dsym] + dextra
    }
  }

  /** The length a match stands for, from its symbol and extra bits: one symbol for each length up to
      10, then four symbols for each number of extra bits from one to five, and one symbol for 258. */
  lemma MatchLength(tab: Tables, t: Token)
    requires tab.Sane() && tab.Standard() && t.Match? && t.Formed(tab)
    ensures var l, n := t.lsym, (t.lsym - 261) / 4;
            if l < 265 then t.Len(tab) == l - 254
            else if l < 285 then t.lextra < Pow2(n) && t.Len(tab) == 3 + (4 + (l - 261) % 4) * Pow2(n) + t.lextra
            else t.Len(tab) == 258
    ensures 3 <= t.Len(tab) <= 258
  {
    var i := t.lsym - 257;
    assert tab.LengthCode(if i < 28 then i else 27);
    assert Pow2(0) == 1;
    if i < 28 { LengthBaseIs(tab, i); }
    if 8 <= i < 28 { LengthRange(i, t.lextra); }
  }

  lemma {:induction false} LengthBaseIs(tab: Tables, i: nat)
    requires tab.Sane() && tab.Standard() && i < 28
    ensures tab.lengthBase[i] == if i < 8 then 3 + i else 3 + Wide((i - 4) % 4, Pow2((i - 4) / 4))
  {
    assert tab.LengthCode(if i > 0 then i - 1 else 0);
    if i > 0 { LengthBaseIs(tab, i - 1); }
    if i < 9 { SmallPowers(); } else { NextGroup(i - 4); }
  }

  /** Four codes on, the width doubles. */
  lemma NextGroup(k: nat)
    requires k > 4
    ensures Wide(k % 4, Pow2(k / 4)) == Wide((k - 1) % 4, Pow2((k - 1) / 4)) + Pow2((k - 1) / 4)
  {
    Quarters(k);
    if k % 4 == 0 { assert Pow2(k / 4) == 2 * Pow2(k / 4 - 1); }
    Wider(k % 4, Pow2(k / 4), (k - 1) % 4, Pow2((k - 1) / 4));
  }

  lemma Quarters(k: nat)
    requires k > 4
    ensures if k % 4 == 0 then (k - 1) / 4 == k / 4 - 1 && (k - 1) % 4 == 3 else (k - 1) / 4 == k / 4 && (k - 1) % 4 == k % 4 - 1
  {
  }

  lemma Wider(r: nat, p: nat, r0: nat, p0: nat)
    requires (r == 0 && r0 == 3 && p == 2 * p0) || (r0 + 1 == r && p == p0)
    ensures Wide(r, p) == Wide(r0, p0) + p0
  {
  }

  function Wide(r: nat, p: nat): nat { (4 + r) * p }

  lemma LengthRange(i: nat, le: nat)
    requires 8 <= i < 28 && le < Pow2((i - 4) / 4)
    ensures Wide((i - 4) % 4, Pow2((i - 4) / 4)) + le < 256
  {
    SmallPowers();
    var n, r := (i - 4) / 4, (i - 4) % 4;
    if n == 1 {} else if n == 2 {} else if n == 3 {} else if n == 4 {} else { assert n == 5; }
  }

  /** The distance a match stands for: two codes for each number of extra bits, after the first two. */
  lemma MatchDistance(tab: Tables, t: Token)
    requires tab.Sane() && tab.Standard() && t.Match? && t.Formed(tab)
    ensures var d, n := t.dsym, t.dsym / 2 - 1;
            if d < 2 then t.Dist(tab) == d + 1
            else t.dextra < Pow2(n) && t.Dist(tab) == 1 + (2 + d % 2) * Pow2(n) + t.dextra
    ensures 1 <= t.Dist(tab) <= 32768
  {
    assert tab.DistanceCode(t.dsym);
    DistanceBaseIs(tab, t.dsym);
    DistanceEnd(tab, t.dsym + 1);
    assert Pow2(0) == 1;
  }

  lemma {:induction false} DistanceBaseIs(tab: Tables, i: nat)
    requires tab.Sane() && tab.Standard() && i < 30
    ensures tab.distBase[i] == if i < 2 then i + 1 else 1 + (2 + i % 2) * Pow2(i / 2 - 1)
  {
    assert tab.DistanceCode(if i > 0 then i - 1 else 0);
    if i > 0 { DistanceBaseIs(tab, i - 1); }
    if i < 3 { SmallPowers(); } else { NextPair(i); }
  }

  lemma NextPair(i: nat)
    requires i >= 3
    ensures (2 + i % 2) * Pow2(i / 2 - 1) == (2 + (i - 1) % 2) * Pow2((i - 1) / 2 - 1) + Pow2((i - 1) / 2 - 1)
  {
    if i % 2 == 0 {
      assert (i - 1) / 2 == i / 2 - 1 && (i - 1) % 2 == 1;
      assert Pow2(i / 2 - 1) == 2 * Pow2(i / 2 - 2);
    } else {
      assert (i - 1) / 2 == i / 2 && (i - 1) % 2 == 0;
    }
  }

  /** No code goes past the last. */
  lemma {:induction false} DistanceEnd(tab: Tables, i: nat)
    requires tab.Sane() && tab.Standard() && 1 <= i <= 30
    ensures tab.distBase[i - 1] + Pow2(tab.distExtra[i - 1]) <= 32769
    decreases 30 - i
  {
    assert tab.DistanceCode(i - 1);
    if i < 30 { DistanceEnd(tab, i + 1); }
  }

  predicate HasCode(lens: seq<nat>, i: nat) {
    i < |lens| && lens[i] > 0
  }

  function PutBits(x: nat, n: nat, tail: nat): nat {
    x + Shl(tail, n)
  }

  /** A codeword goes into the stream most significant bit first. */
  function PutCode(lens: seq<nat>, i: nat, tail: nat): nat
    requires i < |lens|
  {
    PutBits(MsbFirst(Code(lens, i), lens[i]), lens[i], tail)
  }

  predicate IsDistance(c: Coding, d: nat, de: nat)
    requires c.tab.Sane()
  {
    d < 30 && HasCode(c.ds, d) && de < Pow2(c.tab.distExtra[d])
  }

  function PutDistance(c: Coding, d: nat, de: nat, tail: nat): nat
    requires c.tab.Sane() && d < 30 && HasCode(c.ds, d)
  {
    PutCode(c.ds, d, PutBits(de, c.tab.distExtra[d], tail))
  }

  /** After the code of its length symbol l, the match is what comes next in v, before tail. */
  ghost predicate MatchAt(c: Coding, l: nat, t: Token, v: nat, tail: nat)
    requires c.tab.Sane()
  {
    t.Match? && t.lsym == l && t.Formed(c.tab) && HasCode(c.ds, t.dsym) && v == PutAfterLength(c, t, tail)
  }

  lemma BuildMatch(c: Coding, l: nat, le: nat, d: nat, de: nat, rest: nat, tail: nat)
    requires c.tab.Sane() && 257 <= l < 286 && le < Pow2(c.tab.lengthExtra[l - 257])
    requires IsDistance(c, d, de) && rest == PutDistance(c, d, de, tail)
    ensures MatchAt(c, l, Match(l, le, d, de), PutBits(le, c.tab.lengthExtra[l - 257], rest), tail)
  {
  }

  lemma AfterExtra(c: Coding, l: nat, t: Token, le: nat, rest: nat, tail: nat)
    requires c.tab.Sane() && 257 <= l < 286 && le < Pow2(c.tab.lengthExtra[l - 257])
    requires MatchAt(c, l, t, PutBits(le, c.tab.lengthExtra[l - 257], rest), tail)
    ensures le == t.lextra && rest == PutDistance(c, t.dsym, t.dextra, tail)
  {
    PutBitsUnique(le, rest, t.lextra, PutDistance(c, t.dsym, t.dextra, tail), c.tab.lengthExtra[l - 257]);
  }

  /** What follows the length symbol: its extra bits, the distance code, and that code's extra bits. */
  function PutAfterLength(c: Coding, t: Token, tail: nat): nat
    requires c.tab.Sane() && t.Match? && t.Formed(c.tab) && HasCode(c.ds, t.dsym)
  {
    PutBits(t.lextra, c.tab.lengthExtra[t.lsym - 257], PutDistance(c, t.dsym, t.dextra, tail))
  }

  function PutToken(c: Coding, t: Token, tail: nat): nat
    requires c.tab.Sane() && t.Codable(c)
  {
    PutCode(c.ls, t.Symbol(), if t.Literal? then tail else PutAfterLength(c, t, tail))
  }

  function TokenBits(c: Coding, t: Token): nat
    requires c.tab.Sane() && t.Codable(c)
  {
    match t
    case Literal(b) => c.ls[b]
    case Match(l, le, d, de) => c.ls[l] + c.tab.lengthExtra[l - 257] + c.ds[d] + c.tab.distExtra[d]
  }

  predicate AllCodable(c: Coding, ts: seq<Token>)
    requires c.tab.Sane()
  {
    forall k :: 0 <= k < |ts| ==> ts[k].Codable(c)
  }

  /** The bit stream of a token sequence followed by the stream tail. */
  function PutTokens(c: Coding, ts: seq<Token>, tail: nat): nat
    requires c.tab.Sane() && AllCodable(c, ts)
  {
    if ts == [] then tail else PutToken(c, ts[0], PutTokens(c, ts[1..], tail))
  }

  function TokensBits(c: Coding, ts: seq<Token>): nat
    requires c.tab.Sane() && AllCodable(c, ts)
  {
    if ts == [] then 0 else TokenBits(c, ts[0]) + TokensBits(c, ts[1..])
  }

  // ----- what a block means: LZ77 expansion -----

  /** Append len bytes, each copied from dist bytes back; source and copy may overlap. */
  function Copy(out: seq<nat>, len: nat, dist: nat): (r: seq<nat>)
    requires 1 <= dist <= |out|
    ensures |r| == |out| + len && r[..|out|] == out
    decreases len
  {
    if len == 0 then out else Copy(out + [out[|out| - dist]], len - 1, dist)
  }

  /** The token does not reach back before the start of the output. */
  predicate Fitting(tab: Tables, out: seq<nat>, t: Token)
    requires tab.Sane()
  {
    t.Match? ==> t.Formed(tab) && t.Dist(tab) <= |out|
  }

  function Expand1(tab: Tables, out: seq<nat>, t: Token): (r: seq<nat>)
    requires tab.Sane() && Fitting(tab, out, t)
    ensures |out| < |r|
  {
    match t
    case Literal(b) => out + [b]
    case Match(_, _, _, _) => Copy(out, t.Len(tab), t.Dist(tab))
  }

  predicate Expandable(tab: Tables, out: seq<nat>, ts: seq<Token>)
    requires tab.Sane()
    decreases |ts|
  {
    ts != [] ==> Fitting(tab, out, ts[0]) && Expandable(tab, Expand1(tab, out, ts[0]), ts[1..])
  }

  function Expand(tab: Tables, out: seq<nat>, ts: seq<Token>): (r: seq<nat>)
    requires tab.Sane() && Expandable(tab, out, ts)
    ensures |out| <= |r|
    decreases |ts|
  {
    if ts == [] then out else Expand(tab, Expand1(tab, out, ts[0]), ts[1..])
  }

  // ----- facts about the encoder -----

  /** What was put is next, and taking it leaves the tail. */
  lemma PutCodeNext(lens: seq<nat>, i: nat, tail: nat)
    requires Lengths(lens) && Fits(lens, 15) && HasCode(lens, i)
    ensures Next(lens, PutCode(lens, i, tail), i)
    ensures Shr(PutCode(lens, i, tail), lens[i]) == tail
  {
    var s, c := lens[i], Code(lens, i);
    CodeFits(lens, i);
    MsbFirstBound(c, s);
    SplitUnique(MsbFirst(c, s), tail, s);
    MsbFirstInverse(PutCode(lens, i, tail), s, c);
  }

  /** And a stream in which i is next is i put before the rest. */
  lemma NextIsPut(lens: seq<nat>, v: nat, i: nat)
    requires Lengths(lens) && Fits(lens, 15) && Next(lens, v, i)
    ensures v == PutCode(lens, i, Shr(v, lens[i]))
  {
    CodeFits(lens, i);
    MsbFirstInverse(v, lens[i], Code(lens, i));
    Split(v, lens[i]);
  }

  lemma PutBitsUnique(x: nat, v: nat, y: nat, w: nat, n: nat)
    requires x < Pow2(n)
    ensures y < Pow2(n) && PutBits(x, n, v) == PutBits(y, n, w) ==> x == y && v == w
  {
    SplitUnique(x, v, n);
    if y < Pow2(n) { SplitUnique(y, w, n); }
  }

  lemma {:induction false} PutTokensAppend(c: Coding, ts: seq<Token>, t: Token, tail: nat)
    requires c.tab.Sane() && AllCodable(c, ts) && t.Codable(c)
    ensures AllCodable(c, ts + [t])
    ensures PutTokens(c, ts + [t], tail) == PutTokens(c, ts, PutToken(c, t, tail))
  {
    if ts == [] {
      assert [t][1..] == [];
    } else {
      assert (ts + [t])[1..] == ts[1..] + [t];
      PutTokensAppend(c, ts[1..], t, tail);
    }
  }

  lemma {:induction false} ExpandAppend(tab: Tables, out: seq<nat>, ts: seq<Token>, t: Token)
    requires tab.Sane() && Expandable(tab, out, ts) && Fitting(tab, Expand(tab, out, ts), t)
    ensures Expandable(tab, out, ts + [t])
    ensures Expand(tab, out, ts + [t]) == Expand1(tab, Expand(tab, out, ts), t)
    decreases |ts|
  {
    if ts == [] {
      assert [t][1..] == [];
    } else {
      assert (ts + [t])[1..] == ts[1..] + [t];
      ExpandAppend(tab, Expand1(tab, out, ts[0]), ts[1..], t);
    }
  }

  lemma {:induction false} CopyAppend(out: seq<nat>, len: nat, dist: nat)
    requires 1 <= dist <= |out|
    ensures var c := Copy(out, len, dist); Copy(out, len + 1, dist) == c + [c[|c| - dist]]
    decreases len
  {
    if len > 0 { CopyAppend(out + [out[|out| - dist]], len - 1, dist); }
  }

  lemma {:induction false} CopyPrefix(out: seq<nat>, len: nat, dist: nat, k: nat)
    requires 1 <= dist <= |out| && k <= len
    ensures Copy(out, len, dist)[..|out| + k] == Copy(out, k, dist)
    decreases len
  {
    if k < len {
      CopyPrefix(out, len - 1, dist, k);
      CopyAppend(out, len - 1, dist);
    }
  }

  /** In the copied part every byte equals the one dist places before it, overlap or not. */
  lemma CopyIsPeriodic(out: seq<nat>, len: nat, dist: nat, k: nat)
    requires 1 <= dist <= |out| && k < len
    ensures var r := Copy(out, len, dist); r[|out| + k] == r[|out| + k - dist]
  {
    CopyPrefix(out, len, dist, k + 1);
    CopyAppend(out, k, dist);
    var r, c := Copy(out, len, dist), Copy(out, k, dist);
    var p := |out| + k;
    assert r[..p + 1] == c + [c[p - dist]];
    assert r[p] == r[..p + 1][p] && r[p - dist] == r[..p + 1][p - dist];
  }

  /** What a token adds to the output: its byte, or bytes that each equal the one a fixed distance back. */
  lemma TokenAdds(tab: Tables, out: seq<nat>, t: Token, k: nat)
    requires tab.Sane() && Fitting(tab, out, t)
    ensures var r := Expand1(tab, out, t);
            && |r| == |out| + (if t.Literal? then 1 else t.Len(tab)) && r[..|out|] == out
            && (t.Literal? ==> r[|out|] == t.b)
            && (t.Match? && k < t.Len(tab) ==> r[|out| + k] == r[|out| + k - t.Dist(tab)])
  {
    if t.Match? && k < t.Len(tab) { CopyIsPeriodic(out, t.Len(tab), t.Dist(tab), k); }
  }

  // ----- the bits of a token -----

  lemma PutBitsBit(x: nat, n: nat, tail: nat, k: nat)
    requires x < Pow2(n)
    ensures Bit(PutBits(x, n, tail), k) == if k < n then Bit(x, k) else Bit(tail, k - n)
  {
    var v := PutBits(x, n, tail);
    SplitUnique(x, tail, n);
    BitLow(v, n, k);
    if k >= n { BitShr(v, n, k - n); }
  }

  lemma PutCodeBit(lens: seq<nat>, i: nat, tail: nat, k: nat)
    requires i < |lens|
    ensures Bit(PutCode(lens, i, tail), k) == if k < lens[i] then Bit(Code(lens, i), lens[i] - 1 - k) else Bit(tail, k - lens[i])
  {
    MsbFirstBound(Code(lens, i), lens[i]);
    PutBitsBit(MsbFirst(Code(lens, i), lens[i]), lens[i], tail, k);
    BitMsbFirst(Code(lens, i), lens[i], k);
  }

  /** Bit k of the stream when the token is next: codes come with their first bit first, extra bits
      with their lowest bit first; the length symbol, its extra bits, the distance code and its
      extra bits follow one another. */
  lemma TokenLayout(c: Coding, t: Token, tail: nat, k: nat)
    requires c.tab.Sane() && t.Codable(c)
    ensures var bit, s := Bit(PutToken(c, t, tail), k), c.ls[t.Symbol()];
            if k < s then bit == Bit(Code(c.ls, t.Symbol()), s - 1 - k)
            else if t.Literal? then bit == Bit(tail, k - s)
            else
              var x := s + c.tab.lengthExtra[t.lsym - 257]; var d := x + c.ds[t.dsym]; var e := d + c.tab.distExtra[t.dsym];
              bit == if k < x then Bit(t.lextra, k - s)
                     else if k < d then Bit(Code(c.ds, t.dsym), d - 1 - k)
                     else if k < e then Bit(t.dextra, k - d)
                     else Bit(tail, k - e)
  {
    var s := c.ls[t.Symbol()];
    PutCodeBit(c.ls, t.Symbol(), if t.Literal? then tail else PutAfterLength(c, t, tail), k);
    if t.Match? && k >= s { MatchLayout(c, t, tail, k - s); }
  }

  lemma MatchLayout(c: Coding, t: Token, tail: nat, k: nat)
    requires c.tab.Sane() && t.Match? && t.Formed(c.tab) && HasCode(c.ds, t.dsym)
    ensures var x := c.tab.lengthExtra[t.lsym - 257]; var d := x + c.ds[t.dsym]; var e := d + c.tab.distExtra[t.dsym];
            Bit(PutAfterLength(c, t, tail), k) == if k < x then Bit(t.lextra, k)
                     else if k < d then Bit(Code(c.ds, t.dsym), d - 1 - k)
                     else if k < e then Bit(t.dextra, k - d)
                     else Bit(tail, k - e)
  {
    var x := c.tab.lengthExtra[t.lsym - 257];
    PutBitsBit(t.lextra, x, PutDistance(c, t.dsym, t.dextra, tail), k);
    if k >= x {
      var y, n := c.ds[t.dsym], c.tab.distExtra[t.dsym];
      PutCodeBit(c.ds, t.dsym, PutBits(t.dextra, n, tail), k - x);
      if k >= x + y { PutBitsBit(t.dextra, n, tail, k - x - y); }
    }
  }

  /** The stream over a byte string: bytes in order, the lowest bit of each first, then zeros. */
  lemma {:induction false} RestBit(input: seq<nat>, p: nat, q: nat, b: nat)
    requires b < 8 && forall k :: 0 <= k < |input| ==> input[k] < 256
    ensures Bit(Rest(input, p), 8 * q + b) == (p + q < |input| && Bit(input[p + q], b))
    decreases q
  {
    BitZero(8 * q + b);
    if p < |input| {
      Pow2Of16();
      PutBitsBit(input[p], 8, Rest(input, p + 1), 8 * q + b);
      if q > 0 { RestBit(input, p + 1, q - 1, b); }
    }
  }

  // ----- what a decoder that follows an encoding sees -----

  /** The stream v, of which at least left bits are available, starts with the tokens ws, an
      end-of-block code and tail; 16 bits or more remain when the last token has been read. */
  ghost predicate Ahead(c: Coding, v: nat, left: nat, ws: seq<Token>, tail: nat) {
    && c.Good() && AllCodable(c, ws) && HasCode(c.ls, 256)
    && v == PutTokens(c, ws, PutCode(c.ls, 256, tail))
    && left >= TokensBits(c, ws) + 16
  }

  ghost function FirstSymbol(ws: seq<Token>): nat {
    if ws == [] then 256 else ws[0].Symbol()
  }

  /** The next symbol is that of the first token, and of no other. */
  lemma AheadSymbol(c: Coding, v: nat, left: nat, ws: seq<Token>, tail: nat, i: nat)
    requires Ahead(c, v, left, ws, tail)
    ensures left >= 16 && Next(c.ls, v, FirstSymbol(ws))
    ensures Next(c.ls, v, i) ==> i == FirstSymbol(ws)
    ensures ws == [] ==> Shr(v, c.ls[256]) == tail
    ensures ws != [] ==>
      ws[0].Codable(c)
      && var rest := PutTokens(c, ws[1..], PutCode(c.ls, 256, tail));
         Shr(v, c.ls[ws[0].Symbol()]) == if ws[0].Literal? then rest else PutAfterLength(c, ws[0], rest)
  {
    if ws == [] {
      PutCodeNext(c.ls, 256, tail);
    } else {
      var rest := PutTokens(c, ws[1..], PutCode(c.ls, 256, tail));
      assert ws[0].Codable(c);
      PutCodeNext(c.ls, ws[0].Symbol(), if ws[0].Literal? then rest else PutAfterLength(c, ws[0], rest));
    }
    if Next(c.ls, v, i) { PrefixFree(c.ls, v, i, FirstSymbol(ws)); }
  }

  lemma AheadStep(c: Coding, v: nat, left: nat, ws: seq<Token>, tail: nat, v': nat, left': nat)
    requires Ahead(c, v, left, ws, tail) && ws != []
    ensures ws[0].Codable(c)
    ensures v' == PutTokens(c, ws[1..], PutCode(c.ls, 256, tail)) && left' + TokenBits(c, ws[0]) >= left
      ==> Ahead(c, v', left', ws[1..], tail)
  {
  }

  /** The stream v0 was the tokens got and then v; expanding them after o0 gave o. */
  ghost predicate Sofar(c: Coding, o0: seq<nat>, v0: nat, got: seq<Token>, v: nat, o: seq<nat>) {
    && c.tab.Sane() && AllCodable(c, got) && v0 == PutTokens(c, got, v)
    && Expandable(c.tab, o0, got) && o == Expand(c.tab, o0, got)
  }

  lemma SofarStep(c: Coding, o0: seq<nat>, v0: nat, got: seq<Token>, v: nat, o: seq<nat>, t: Token, v': nat, o': seq<nat>)
    requires Sofar(c, o0, v0, got, v, o)
    requires t.Codable(c) && v == PutToken(c, t, v') && Fitting(c.tab, o, t) && o' == Expand1(c.tab, o, t)
    ensures Sofar(c, o0, v0, got + [t], v', o')
  {
    PutTokensAppend(c, got, t, v');
    ExpandAppend(c.tab, o0, got, t);
  }

  lemma HeadMoves(got: seq<Token>, rest: seq<Token>)
    requires rest != []
    ensures got + [rest[0]] + rest[1..] == got + rest
  {
  }

  // ----- the decoder state -----

  /** The bytes from p on as one number, the first byte least significant. */
  function Rest(input: seq<nat>, p: nat): nat
    decreases |input| - p
  {
    if p >= |input| then 0 else input[p] + Shl(Rest(input, p + 1), 8)
  }

  /** Undefined: a symbol that RFC 1951 says never occurs; what follows it is not modelled. */
  datatype Status = Done | More | Error | Undefined

  lemma RestStep(input: seq<nat>, p: nat)
    ensures Rest(input, p) == if p < |input| then input[p] + Shl(Rest(input, p + 1), 8) else Shl(Rest(input, p), 8)
  {
    if p >= |input| { ShlOne(8); }
  }

  class ZBuf {
    const input: seq<nat>
    var zbuffer: nat        // next input byte
    var num_bits: nat       // how many bits are buffered
    var code_buffer: nat    // unsigned 32-bit
    var out: array<nat>     // zout_start .. zout_end
    var zout: nat           // next output byte
    const z_expandable: bool
    const tab: Tables       // the static tables
    const z_length: Huffman
    const z_distance: Huffman

    ghost predicate Reader()
      reads this
    {
      && zbuffer <= |input| && (forall k :: 0 <= k < |input| ==> input[k] < 256)
      && num_bits <= 32 && code_buffer < Pow2(num_bits)
    }

    /** All the unread bits, the next one least significant. */
    ghost function Stream(): nat
      reads this
    {
      code_buffer + Shl(Rest(input, zbuffer), num_bits)
    }

    /** How many bits are left, counting zero bits already appended at end of input. */
    ghost function Left(): nat
      requires zbuffer <= |input|
      reads this
    {
      num_bits + 8 * (|input| - zbuffer)
    }

    constructor (input: seq<nat>, initial_size: nat, expandable: bool)
      requires forall k :: 0 <= k < |input| ==> input[k] < 256
      requires initial_size <= UINT_MAX && (expandable ==> initial_size > 0)
      ensures Reader() && Stream() == Rest(input, 0) && Left() == 8 * |input|
      ensures tab == DEFLATE
      ensures this.input == input && out.Length == initial_size && zout == 0 && z_expandable == expandable
      ensures fresh(out) && z_length.Shape() && z_distance.Shape()
      ensures fresh(z_length.Repr) && fresh(z_distance.Repr) && z_length.Repr !! z_distance.Repr
      ensures this !in z_length.Repr + z_distance.Repr && out !in z_length.Repr + z_distance.Repr
    {
      this.input := input;
      var ls := new Huffman();
      var ds := new Huffman();
      var buffer := new nat[initial_size];
      zbuffer, num_bits, code_buffer, zout := 0, 0, 0, 0;
      z_expandable := expandable;
      tab := DEFLATE;
      z_length, z_distance, out := ls, ds, buffer;
    }

    /** Appends input bytes, or zeros at end of input, without changing the unread bits. */
    method FillBits()
      requires Reader() && num_bits <= 24
      modifies this`zbuffer, this`num_bits, this`code_buffer
      ensures Reader() && num_bits > 24 && num_bits >= old(num_bits)
      ensures Stream() == old(Stream())
      ensures Left() >= old(Left())
    {
      while true
        invariant Reader() && num_bits >= old(num_bits)
        invariant Stream() == old(Stream())
        invariant Left() >= old(Left())
        invariant num_bits <= 24
        decreases 24 - num_bits
      {
        ShlOne(num_bits);
        if code_buffer >= Shl(1, num_bits) {
          assert false; // the decoder would give up here; buffered bits never reach past num_bits
          return;
        }
        FillByte();
        if num_bits > 24 { break; }
      }
    }

    method FillByte()
      requires Reader() && num_bits <= 24
      modifies this`zbuffer, this`num_bits, this`code_buffer
      ensures Reader() && num_bits == old(num_bits) + 8
      ensures Stream() == old(Stream())
      ensures Left() >= old(Left())
    {
      var b := 0;
      ghost var rest := Rest(input, zbuffer);
      if zbuffer < |input| {
        b := input[zbuffer];
        zbuffer := zbuffer + 1;
      }
      RestStep(input, old(zbuffer));
      FillArithmetic(code_buffer, num_bits, b, Rest(input, zbuffer));
      code_buffer := Or(code_buffer, Shl(b, num_bits));
      num_bits := num_bits + 8;
    }

    /** Takes n bits off the stream. */
    method Receive(n: nat) returns (k: nat)
      requires Reader() && n <= 16
      modifies this`zbuffer, this`num_bits, this`code_buffer
      ensures Reader()
      ensures k == Low(old(Stream()), n) && Stream() == Shr(old(Stream()), n)
      ensures Left() + n >= old(Left())
    {
      if num_bits < n { FillBits(); }
      Masked(code_buffer, Rest(input, zbuffer), num_bits, n);
      k := And(code_buffer, Shl(1, n) - 1);
      Take(n);
    }

    /** The low buffered bits are the next ones of the stream. */
    static lemma Masked(code_buffer: nat, rest: nat, num_bits: nat, n: nat)
      requires n <= num_bits
      ensures Shl(1, n) >= 1 && And(code_buffer, Shl(1, n) - 1) == Low(code_buffer + Shl(rest, num_bits), n)
    {
      ShlOne(n);
      AndMask(code_buffer, n);
      LowOfSum(code_buffer, rest, num_bits, n);
    }

    /** Takes the symbol that is next off the stream; -1 if there is none. */
    method Decode(z: Huffman) returns (r: int)
      requires Reader() && z.Valid() && this !in z.Repr
      modifies this`zbuffer, this`num_bits, this`code_buffer
      ensures Reader()
      ensures r >= 0 ==> Next(z.lens, old(Stream()), r) && Stream() == Shr(old(Stream()), z.lens[r])
                         && Left() + z.lens[r] >= old(Left())
      ensures r < 0 ==> r == -1 && Stream() == old(Stream())
      ensures r < 0 && old(Left()) >= 16 ==> forall i :: 0 <= i < |z.lens| ==> !Next(z.lens, old(Stream()), i)
    {
      if num_bits < 16 {
        if zbuffer >= |input| { return -1; }
        FillBits();
      }
      var b := FastEntry(z);
      if b != 0 {
        r := And(b, 511);
        Take(Shr(b, 9));
      } else {
        r := DecodeSlowly(z);
      }
    }

    /** The entry of the fast table for the buffered bits. */
    method FastEntry(z: Huffman) returns (b: nat)
      requires Reader() && z.Valid() && num_bits >= 16
      ensures FastSays(z.lens, |z.lens|, Stream(), b)
    {
      FastIndex(code_buffer, Rest(input, zbuffer), num_bits);
      FastIsNext(z.lens, |z.lens|, Stream());
      b := z.fast[And(code_buffer, Shl(1, 9) - 1)];
    }

    /** The nine buffered bits that index the fast table are the next nine of the stream. */
    static lemma FastIndex(code_buffer: nat, rest: nat, num_bits: nat)
      requires num_bits >= 16
      ensures And(code_buffer, Shl(1, 9) - 1) == Low(code_buffer + Shl(rest, num_bits), FAST_BITS) < 512
    {
      Pow2Of16();
      ShlOne(9);
      AndMask(code_buffer, 9);
      LowOfSum(code_buffer, rest, num_bits, 9);
      LowBound(code_buffer, 9);
    }

    /** Drops s buffered bits. */
    method Take(s: nat)
      requires Reader() && s <= num_bits
      modifies this`num_bits, this`code_buffer
      ensures Reader() && num_bits == old(num_bits) - s
      ensures Stream() == Shr(old(Stream()), s)
      ensures Left() == old(Left()) - s
    {
      LowOfSum(code_buffer, Rest(input, zbuffer), num_bits, s);
      ShrBound(code_buffer, num_bits - s, s);
      code_buffer := Shr(code_buffer, s);
      num_bits := num_bits - s;
    }

    // ----- output -----

    /** Makes room for n more bytes by doubling; everything written so far stays. */
    method ZExpand(pos: nat, n: nat) returns (ok: bool)
      requires pos <= out.Length <= UINT_MAX && 0 < n && (z_expandable ==> out.Length > 0)
      modifies this`out, this`zout
      ensures zout == pos
      ensures ok ==> pos + n <= out.Length <= UINT_MAX && fresh(out) && out[..pos] == old(out[..pos])
      ensures !ok ==> out == old(out)
      ensures z_expandable && pos + n <= 0x8000_0000 ==> ok
      ensures ok <==> z_expandable && exists k: nat {:trigger Shl(old(out.Length), k)} :: pos + n <= Shl(old(out.Length), k) <= UINT_MAX
      ensures ok && pos + n > old(out.Length) ==> out.Length < 2 * (pos + n)
    {
      zout := pos;
      if !z_expandable { return false; }
      var cur, limit := zout, out.Length;
      ghost var j := 0;
      if UINT_MAX - cur < n { return false; }
      while cur + n > limit
        invariant out.Length <= limit <= UINT_MAX && 0 < limit
        invariant limit == Shl(out.Length, j) && (j > 0 ==> limit < 2 * (cur + n))
        decreases cur + n - limit
      {
        if limit > UINT_MAX / 2 {
          forall k: nat ensures Shl(out.Length, k) < cur + n || Shl(out.Length, k) > UINT_MAX { DoublingPast(out.Length, j, k); }
          return false;
        }
        limit := limit * 2;
        j := j + 1;
      }
      var q := new nat[limit];
      forall k | 0 <= k < out.Length { q[k] := out[k]; }
      out := q;
      ok := true;
    }

    ghost predicate Valid()
      reads this, z_length.Repr, z_distance.Repr
    {
      && Reader() && out.Length <= UINT_MAX && (z_expandable ==> out.Length > 0)
      && z_length.Valid() && z_distance.Valid() && tab.Sane()
      && this !in z_length.Repr && this !in z_distance.Repr
      && out !in z_length.Repr && out !in z_distance.Repr
    }

    ghost function C(): (c: Coding)
      reads z_length, z_distance
    {
      Coding(z_length.lens, z_distance.lens, tab)
    }

    /** There is room for the output to grow to n bytes. */
    ghost predicate Room(n: nat)
      reads this
    {
      n <= out.Length || (z_expandable && n <= 0x8000_0000)
    }

    method PutByte(pos: nat, b: nat) returns (ok: bool)
      requires Valid() && pos <= out.Length
      modifies this`out, this`zout, out
      ensures Valid() && (out == old(out) || fresh(out))
      ensures ok ==> pos < out.Length && out[..pos + 1] == old(out[..pos]) + [b]
      ensures old(Room(pos + 1)) ==> ok
      ensures forall n :: old(Room(n)) ==> Room(n)
    {
      if pos >= out.Length {
        ok := ZExpand(pos, 1);
        if !ok { return; }
      }
      out[pos] := b;
      ok := true;
    }

    /** Copies len bytes from dist back, one at a time, so that source and target may overlap. */
    method PutMatch(pos: nat, len: nat, dist: nat) returns (ok: bool)
      requires Valid() && 1 <= dist <= pos <= out.Length && len > 0
      modifies this`out, this`zout, out
      ensures Valid() && (out == old(out) || fresh(out))
      ensures ok ==> pos + len <= out.Length && out[..pos + len] == Copy(old(out[..pos]), len, dist)
      ensures old(Room(pos + len)) ==> ok
      ensures forall n :: old(Room(n)) ==> Room(n)
    {
      if pos + len > out.Length {
        ok := ZExpand(pos, len);
        if !ok { return; }
      }
      CopyBytes(out, pos, len, dist);
      ok := true;
    }

    /** Takes n extra bits, where n may be zero. */
    method ReceiveExtra(n: nat) returns (x: nat)
      requires Reader() && n <= 16
      modifies this`zbuffer, this`num_bits, this`code_buffer
      ensures Reader() && x < Pow2(n) && old(Stream()) == PutBits(x, n, Stream())
      ensures Left() + n >= old(Left())
    {
      ghost var v := Stream();
      x := 0;
      if n != 0 { x := Receive(n); }
      Split(v, n);
      LowBound(v, n);
    }

    /** Reads a distance code and its extra bits. */
    method ReadDistance(ghost want: (nat, nat, nat)) returns (st: Status, d: nat, de: nat)
      requires Valid()
      modifies this`zbuffer, this`num_bits, this`code_buffer
      ensures Valid() && st != More
      ensures st == Done ==>
        IsDistance(C(), d, de) && old(Stream()) == PutDistance(C(), d, de, Stream())
        && Left() + C().ds[d] + tab.distExtra[d] >= old(Left())
      ensures IsDistance(C(), want.0, want.1) && old(Left()) >= 16
        && old(Stream()) == PutDistance(C(), want.0, want.1, want.2)
        ==> st == Done && (d, de, Stream()) == want
    {
      ghost var v1, left1, c := Stream(), Left(), C();
      var sym := Decode(z_distance);
      if IsDistance(c, want.0, want.1) && v1 == PutDistance(c, want.0, want.1, want.2) {
        PutCodeNext(c.ds, want.0, PutBits(want.1, tab.distExtra[want.0], want.2));
        if sym >= 0 { PrefixFree(c.ds, v1, sym, want.0); }
      }
      if sym < 0 { return Error, 0, 0; }
      if sym >= 30 { return Undefined, 0, 0; }
      d := sym;
      NextIsPut(c.ds, v1, d);
      de := ReceiveExtra(tab.distExtra[d]);
      st := Done;
      PutBitsUnique(de, Stream(), want.1, want.2, tab.distExtra[d]);
    }

    /** Reads the rest of a match after its length symbol. */
    method ReadMatch(l: nat, ghost want: Token, ghost tail: nat) returns (st: Status, t: Token)
      requires Valid() && 257 <= l < 286
      modifies this`zbuffer, this`num_bits, this`code_buffer
      ensures Valid() && st != More
      ensures st == Done ==>
        MatchAt(C(), l, t, old(Stream()), Stream())
        && Left() + tab.lengthExtra[l - 257] + C().ds[t.dsym] + tab.distExtra[t.dsym] >= old(Left())
      ensures MatchAt(C(), l, want, old(Stream()), tail) && old(Left()) >= tab.lengthExtra[l - 257] + 16
        ==> st == Done && t == want && Stream() == tail
    {
      var n := tab.lengthExtra[l - 257];
      ghost var c, v := C(), Stream();
      var le := ReceiveExtra(n);
      ghost var w := if MatchAt(c, l, want, v, tail) then (want.dsym, want.dextra, tail) else (0, 0, 0);
      if MatchAt(c, l, want, v, tail) { AfterExtra(c, l, want, le, Stream(), tail); }
      ghost var rest := Stream();
      var d, de;
      st, d, de := ReadDistance(w);
      t := Match(l, le, d, de);
      if st == Done { BuildMatch(c, l, le, d, de, rest, Stream()); }
    }

    /** Reads one token or the end-of-block code. */
    method ReadToken(ghost ws: seq<Token>, ghost tail: nat) returns (st: Status, t: Token)
      requires Valid()
      modifies this`zbuffer, this`num_bits, this`code_buffer
      ensures Valid()
      ensures st == More ==> t.Codable(C()) && old(Stream()) == PutToken(C(), t, Stream())
      ensures st == Done ==> HasCode(C().ls, 256) && old(Stream()) == PutCode(C().ls, 256, Stream())
      ensures Ahead(C(), old(Stream()), old(Left()), ws, tail) ==>
        if ws == [] then st == Done && Stream() == tail
        else st == More && t == ws[0] && Ahead(C(), Stream(), Left(), ws[1..], tail)
    {
      ghost var c, v, left := C(), Stream(), Left();
      ghost var follows := Ahead(c, v, left, ws, tail);
      var z := Decode(z_length);
      t := Literal(0);
      if follows { AheadSymbol(c, v, left, ws, tail, if z < 0 then 0 else z); }
      if z < 0 { return Error, t; }
      NextIsPut(c.ls, v, z);
      if z == 256 { return Done, t; }
      if z >= 286 { return Undefined, t; }
      ghost var want := if follows && ws != [] then ws[0] else t;
      ghost var after := if follows && ws != [] then PutTokens(c, ws[1..], PutCode(c.ls, 256, tail)) else 0;
      st, t := ReadRest(z, want, after);
      if follows && ws != [] { AheadStep(c, v, left, ws, tail, Stream(), Left()); }
    }

    /** What is still to be read once the first symbol of t has been. */
    ghost function AfterSymbol(t: Token, tail: nat): nat
      requires tab.Sane() && t.Codable(C())
      reads z_length, z_distance
    {
      if t.Literal? then tail else PutAfterLength(C(), t, tail)
    }

    method ReadRest(z: nat, ghost want: Token, ghost after: nat) returns (st: Status, t: Token)
      requires Valid() && z < 286 && z != 256 && HasCode(C().ls, z)
      modifies this`zbuffer, this`num_bits, this`code_buffer
      ensures Valid() && st != Done
      ensures st == More ==>
        t.Codable(C()) && t.Symbol() == z && old(Stream()) == AfterSymbol(t, Stream())
        && Left() + TokenBits(C(), t) >= old(Left()) + C().ls[z]
      ensures want.Codable(C()) && want.Symbol() == z && old(Stream()) == AfterSymbol(want, after)
        && old(Left()) + C().ls[z] >= TokenBits(C(), want) + 16
        ==> st == More && t == want && Stream() == after
    {
      if z < 256 {
        st, t := More, Literal(z);
      } else {
        st, t := ReadMatch(z, want, after);
        if st == Done { st := More; }
      }
    }

    /** Writes what one token stands for. */
    method WriteToken(pos: nat, t: Token) returns (ok: bool, pos': nat)
      requires Valid() && pos <= out.Length && t.Formed(tab)
      modifies this`out, this`zout, out
      ensures Valid() && (out == old(out) || fresh(out))
      ensures ok ==>
        pos < pos' <= out.Length && Fitting(tab, old(out[..pos]), t)
        && out[..pos'] == Expand1(tab, old(out[..pos]), t)
      ensures Fitting(tab, old(out[..pos]), t) && old(Room(|Expand1(tab, out[..pos], t)|)) ==> ok
      ensures forall n :: old(Room(n)) ==> Room(n)
    {
      if t.Literal? {
        ok := PutByte(pos, t.b);
        pos' := pos + 1;
      } else {
        var len, dist := t.Len(tab), t.Dist(tab);
        if pos < dist { return false, pos; }
        ok := PutMatch(pos, len, dist);
        pos' := pos + len;
      }
    }

    /** The stream is an encoding of ws that this buffer can hold once expanded. */
    ghost predicate Following(pos: nat, ws: seq<Token>, tail: nat)
      requires Reader() && pos <= out.Length
      reads this, out, z_length, z_distance
    {
      && Ahead(C(), Stream(), Left(), ws, tail)
      && Expandable(tab, out[..pos], ws) && Room(|Expand(tab, out[..pos], ws)|)
    }

    /** The decoder has reached pos in the output after the tokens got; if the block encodes want,
        then the tokens that remain are rest. */
    ghost predicate At(c: Coding, o0: seq<nat>, v0: nat, got: seq<Token>, pos: nat)
      reads this, out, z_length, z_distance, z_length.Repr, z_distance.Repr
    {
      && Valid() && C() == c && pos <= out.Length
      && Sofar(c, o0, v0, got, Stream(), out[..pos])
    }

    /** Decodes one block. If it succeeds, the bits read were the encoding of some tokens and the
        output is their expansion; and it does succeed on every encoding that is followed by
        enough bits and whose expansion the buffer can hold. */
    method ParseHuffmanBlock(ghost want: seq<Token>, ghost tail: nat) returns (st: Status, ghost got: seq<Token>)
      requires Valid() && zout <= out.Length
      modifies this, out
      ensures Valid() && st != More
      ensures st == Done ==>
        zout <= out.Length && HasCode(C().ls, 256)
        && Sofar(C(), old(out[..zout]), old(Stream()), got, PutCode(C().ls, 256, Stream()), out[..zout])
      ensures old(Following(zout, want, tail)) ==> st == Done && got == want && Stream() == tail
    {
      ghost var c, o0, v0 := C(), out[..zout], Stream();
      ghost var follows, rest := Following(zout, want, tail), want;
      var pos := zout;
      got := [];
      while true
        invariant At(c, o0, v0, got, pos) && (out == old(out) || fresh(out))
        invariant follows ==> want == got + rest && Following(pos, rest, tail)
        decreases UINT_MAX - pos
      {
        st, pos, got, rest := NextStep(c, o0, v0, got, rest, tail, pos);
        if st != More { return; }
      }
    }

    /** The loop body, with the tokens read so far and the tokens expected. */
    method NextStep(ghost c: Coding, ghost o0: seq<nat>, ghost v0: nat, ghost got: seq<Token>, ghost rest: seq<Token>,
                    ghost tail: nat, pos: nat)
      returns (st: Status, pos': nat, ghost got': seq<Token>, ghost rest': seq<Token>)
      requires At(c, o0, v0, got, pos)
      modifies this, out
      ensures Valid() && C() == c && (out == old(out) || fresh(out))
      ensures st == More ==> At(c, o0, v0, got', pos') && pos < pos'
      ensures st == Done ==>
        zout <= out.Length && HasCode(c.ls, 256) && got' == got
        && Sofar(c, o0, v0, got, PutCode(c.ls, 256, Stream()), out[..zout])
      ensures old(Following(pos, rest, tail)) ==>
        if rest == [] then st == Done && Stream() == tail
        else st == More && got' + rest' == got + rest && Following(pos', rest', tail)
    {
      ghost var v, o, t := Stream(), out[..pos], Literal(0);
      st, pos', t := Step(pos, rest, tail);
      got', rest' := got, rest;
      if st == More {
        got', rest' := got + [t], if rest == [] then rest else rest[1..];
        SofarStep(c, o0, v0, got, v, o, t, Stream(), out[..pos']);
        if rest != [] { HeadMoves(got, rest); }
      } else if st == Done {
        zout := pos;
      }
    }

    /** Once around the block loop. */
    method Step(pos: nat, ghost ws: seq<Token>, ghost tail: nat) returns (st: Status, pos': nat, ghost t: Token)
      requires Valid() && pos <= out.Length
      modifies this, out
      ensures Valid() && C() == old(C()) && (out == old(out) || fresh(out))
      ensures st == More ==>
        t.Codable(C()) && old(Stream()) == PutToken(C(), t, Stream())
        && pos < pos' <= out.Length && Fitting(tab, old(out[..pos]), t)
        && out[..pos'] == Expand1(tab, old(out[..pos]), t)
      ensures st == Done ==>
        HasCode(C().ls, 256) && old(Stream()) == PutCode(C().ls, 256, Stream())
        && pos' == pos <= out.Length && out[..pos] == old(out[..pos])
      ensures old(Following(pos, ws, tail)) ==>
        if ws == [] then st == Done && Stream() == tail
        else st == More && t == ws[0] && Following(pos', ws[1..], tail)
    {
      var tok;
      st, tok := ReadToken(ws, tail);
      t, pos' := tok, pos;
      if st == More {
        var ok;
        ok, pos' := WriteToken(pos, tok);
        if !ok { st := Error; }
      }
    }

    /** Compares the 16 bits, reversed, with the shifted limits of the lengths above nine. */
    method DecodeSlowly(z: Huffman) returns (r: int)
      requires Reader() && num_bits >= 16 && z.Valid() && this !in z.Repr
      requires forall i :: 0 <= i < |z.lens| && Next(z.lens, Stream(), i) ==> z.lens[i] > FAST_BITS
      modifies this`num_bits, this`code_buffer
      ensures Reader()
      ensures r >= 0 ==> Next(z.lens, old(Stream()), r) && Stream() == Shr(old(Stream()), z.lens[r])
                         && num_bits == old(num_bits) - z.lens[r]
      ensures r < 0 ==> r == -1 && Stream() == old(Stream()) && num_bits == old(num_bits)
      ensures r < 0 ==> forall i :: 0 <= i < |z.lens| ==> !Next(z.lens, old(Stream()), i)
    {
      ghost var v, lens := Stream(), z.lens;
      var k := BitReverse(code_buffer, 16);
      BufferedReading(code_buffer, Rest(input, zbuffer), num_bits);
      var s := FindLength(z, k, v);
      if s >= 16 {
        forall i | 0 <= i < |lens| ensures !Next(lens, v, i) {
          if Next(lens, v, i) { NextBelowLimit(lens, v, i); }
        }
        return -1;
      }
      ghost var i := SymbolAt(lens, v, s);
      assert z.Row(s) && z.Kept(i);
      var b := Shr(k, 16 - s) - z.firstcode[s] + z.firstsymbol[s];
      if b >= NSYMS { assert false; return -1; }
      if z.size[b] != s { assert false; return -1; }
      r := z.value[b];
      Take(s);
    }
  }

  /** Doubling before and after step j. */
  lemma DoublingPast(a: nat, j: nat, k: nat)
    ensures if k <= j then Shl(a, k) <= Shl(a, j) else 2 * Shl(a, j) <= Shl(a, k)
  {
    if k < j { Doubling(a, k, j); }
    if j < k { Doubling(a, j, k); }
  }

  lemma {:induction false} Doubling(a: nat, j: nat, k: nat)
    requires j < k
    ensures 2 * Shl(a, j) <= Shl(a, k)
  {
    if j + 1 < k { Doubling(a, j, k - 1); }
  }

  /** The copy loops: one byte repeated when dist is 1, else byte by byte. */
  method CopyBytes(out: array<nat>, pos: nat, len: nat, dist: nat)
    requires 1 <= dist <= pos && pos + len <= out.Length
    modifies out
    ensures out[..pos + len] == Copy(old(out[..pos]), len, dist)
  {
    ghost var before := out[..pos];
    var v := out[pos - dist];
    for k := 0 to len
      invariant out[..pos + k] == Copy(before, k, dist)
      invariant dist == 1 ==> out[pos + k - 1] == v
    {
      CopyAppend(before, k, dist);
      var b := if dist == 1 then v else out[pos + k - dist];
      assert b == out[..pos + k][pos + k - dist];
      out[pos + k] := b;
      assert out[..pos + k + 1] == out[..pos + k] + [b];
    }
  }

  // ----- from tokens to bytes and back -----

  /** The n low bytes of v, least significant first. */
  function ToBytes(v: nat, n: nat): (r: seq<nat>)
    ensures |r| == n && forall k :: 0 <= k < n ==> r[k] < 256
  {
    if n == 0 then [] else [v % 256] + ToBytes(v / 256, n - 1)
  }

  lemma {:induction false} RestOfTail(b: nat, s: seq<nat>, p: nat)
    ensures Rest([b] + s, p + 1) == Rest(s, p)
    decreases |s| - p
  {
    if p < |s| { RestOfTail(b, s, p + 1); }
  }

  lemma {:induction false} RestToBytes(v: nat, n: nat)
    requires v < Pow2(8 * n)
    ensures Rest(ToBytes(v, n), 0) == v
  {
    if n > 0 {
      Pow2Of16();
      ShlPow2(8 * (n - 1), 8);
      Shl8(Pow2(8 * (n - 1)));
      RestToBytes(v / 256, n - 1);
      RestOfTail(v % 256, ToBytes(v / 256, n - 1), 0);
      Shl8(v / 256);
    }
  }

  lemma Shl8(x: nat)
    ensures Shl(x, 8) == 256 * x
  {
    assert Shl(x, 1) == 2 * x;
    assert Shl(x, 3) == 4 * Shl(x, 1) && Shl(x, 5) == 4 * Shl(x, 3);
    assert Shl(x, 7) == 4 * Shl(x, 5) && Shl(x, 8) == 2 * Shl(x, 7);
  }

  lemma PutBitsBound(x: nat, n: nat, tail: nat, k: nat)
    requires x < Pow2(n) && tail < Pow2(k)
    ensures PutBits(x, n, tail) < Pow2(n + k)
  {
    ShlMono(tail + 1, Pow2(k), n);
    ShlAdd(tail, 1, n);
    ShlOne(n);
    ShlPow2(k, n);
  }

  lemma PutCodeBound(lens: seq<nat>, i: nat, tail: nat, k: nat)
    requires HasCode(lens, i) && tail < Pow2(k)
    ensures PutCode(lens, i, tail) < Pow2(lens[i] + k)
  {
    MsbFirstBound(Code(lens, i), lens[i]);
    PutBitsBound(MsbFirst(Code(lens, i), lens[i]), lens[i], tail, k);
  }

  /** A token takes exactly TokenBits bits. */
  lemma PutTokenBound(c: Coding, t: Token, tail: nat, k: nat)
    requires c.tab.Sane() && t.Codable(c) && tail < Pow2(k)
    ensures PutToken(c, t, tail) < Pow2(TokenBits(c, t) + k)
  {
    if t.Literal? {
      PutCodeBound(c.ls, t.b, tail, k);
    } else {
      var nl, nd := c.tab.lengthExtra[t.lsym - 257], c.tab.distExtra[t.dsym];
      var v3 := PutBits(t.dextra, nd, tail);
      PutBitsBound(t.dextra, nd, tail, k);
      PutCodeBound(c.ds, t.dsym, v3, nd + k);
      var v2 := PutCode(c.ds, t.dsym, v3);
      PutBitsBound(t.lextra, nl, v2, c.ds[t.dsym] + nd + k);
      PutCodeBound(c.ls, t.lsym, PutBits(t.lextra, nl, v2), nl + c.ds[t.dsym] + nd + k);
    }
  }

  lemma {:induction false} PutTokensBound(c: Coding, ts: seq<Token>, tail: nat, k: nat)
    requires c.tab.Sane() && AllCodable(c, ts) && tail < Pow2(k)
    ensures PutTokens(c, ts, tail) < Pow2(TokensBits(c, ts) + k)
  {
    if ts != [] {
      PutTokensBound(c, ts[1..], tail, k);
      PutTokenBound(c, ts[0], PutTokens(c, ts[1..], tail), TokensBits(c, ts[1..]) + k);
    }
  }

  /** A block as bytes: the tokens, the end-of-block code, padding, and two more bytes such as the
      checksum that ends a zlib stream always provides. */
  function EncodeBlock(c: Coding, ts: seq<Token>): seq<nat>
    requires c.tab.Sane() && AllCodable(c, ts) && HasCode(c.ls, 256)
  {
    ToBytes(PutTokens(c, ts, PutCode(c.ls, 256, 0)), BlockBytes(c, ts))
  }

  function BlockBytes(c: Coding, ts: seq<Token>): nat
    requires c.tab.Sane() && AllCodable(c, ts) && HasCode(c.ls, 256)
  {
    (TokensBits(c, ts) + c.ls[256] + 7) / 8 + 2
  }

  lemma EncodedStream(c: Coding, ts: seq<Token>)
    requires c.Good() && AllCodable(c, ts) && HasCode(c.ls, 256)
    ensures Ahead(c, Rest(EncodeBlock(c, ts), 0), 8 * |EncodeBlock(c, ts)|, ts, 0)
  {
    var n := BlockBytes(c, ts);
    PutCodeBound(c.ls, 256, 0, 0);
    PutTokensBound(c, ts, PutCode(c.ls, 256, 0), c.ls[256]);
    Pow2Mono(TokensBits(c, ts) + c.ls[256], 8 * n);
    RestToBytes(PutTokens(c, ts, PutCode(c.ls, 256, 0)), n);
  }

  /** A block without tokens is the code of symbol 256, its first bit first. */
  lemma EndOfBlock(c: Coding, k: nat)
    requires c.Good() && HasCode(c.ls, 256) && k < c.ls[256]
    ensures Bit(Rest(EncodeBlock(c, []), 0), k) == Bit(Code(c.ls, 256), c.ls[256] - 1 - k)
  {
    EncodedStream(c, []);
    PutCodeBit(c.ls, 256, 0, k);
  }

  /** The tokens can be written with these codes, and stand for at most 2 GiB. */
  ghost predicate Encodable(ls: seq<nat>, ds: seq<nat>, ts: seq<Token>) {
    DEFLATE.Sane() ==>
      && AllCodable(Coding(ls, ds, DEFLATE), ts) && HasCode(ls, 256)
      && Expandable(DEFLATE, [], ts) && |Expand(DEFLATE, [], ts)| <= 0x8000_0000
  }

  /** Encoding tokens with any two accepted lists of code lengths and running the decoder over the
      bytes gives their LZ77 expansion. */
  method RoundTrip(ls: seq<nat>, ds: seq<nat>, ts: seq<Token>, size: nat) returns (bytes: seq<nat>)
    requires Lengths(ls) && Lengths(ds) && Kraft(ls) <= Pow2(15) && Kraft(ds) <= Pow2(15)
    requires Encodable(ls, ds, ts) && 0 < size <= UINT_MAX
    ensures DEFLATE.Sane() && DEFLATE.Standard()
    ensures Expandable(DEFLATE, [], ts) && bytes == Expand(DEFLATE, [], ts)
  {
    DeflateStandard();
    var c := Coding(ls, ds, DEFLATE);
    FitsIffKraft(ls);
    FitsIffKraft(ds);
    EncodedStream(c, ts);
    var z := new ZBuf(EncodeBlock(c, ts), size, true);
    var okL := z.z_length.Build(ls);
    var okD := z.z_distance.Build(ds);
    assert z.out[..0] == [];
    var st, got := z.ParseHuffmanBlock(ts, 0);
    bytes := z.out[..z.zout];
  }

  /** Or-ing the next byte in above the buffered bits moves it from the rest into the buffer. */
  lemma FillArithmetic(code_buffer: nat, num_bits: nat, b: nat, rest: nat)
    requires code_buffer < Pow2(num_bits) && b < 256
    ensures Or(code_buffer, Shl(b, num_bits)) < Pow2(num_bits + 8)
    ensures Or(code_buffer, Shl(b, num_bits)) + Shl(rest, num_bits + 8)
         == code_buffer + Shl(b + Shl(rest, 8), num_bits)
  {
    OrDisjoint(code_buffer, b, num_bits);
    ShlAdd(b, Shl(rest, 8), num_bits);
    ShlShl(rest, 8, num_bits);
    FillBound(num_bits, b);
  }

  lemma FillBound(num_bits: nat, b: nat)
    requires b < 256
    ensures Pow2(num_bits) + Shl(b, num_bits) <= Pow2(num_bits + 8)
  {
    Pow2Of16();
    ShlMono(b + 1, Pow2(8), num_bits);
    ShlAdd(b, 1, num_bits);
    ShlOne(num_bits);
    ShlPow2(8, num_bits);
  }

  lemma BufferedReading(code_buffer: nat, rest: nat, num_bits: nat)
    requires num_bits >= 16
    ensures MsbFirst(code_buffer + Shl(rest, num_bits), 16) == MsbFirst(code_buffer, 16)
  {
    LowOfSum(code_buffer, rest, num_bits, 16);
    MsbFirstLow(code_buffer + Shl(rest, num_bits), 16, 16);
    MsbFirstLow(code_buffer, 16, 16);
  }

  /** The least length above nine whose limit exceeds k; 16 if no code does. */
  method FindLength(z: Huffman, k: nat, ghost v: nat) returns (s: nat)
    requires z.Valid() && k == MsbFirst(v, 16)
    requires forall i :: 0 <= i < |z.lens| && Next(z.lens, v, i) ==> z.lens[i] > FAST_BITS
    ensures FAST_BITS < s <= 16 && Limit(z.lens, s - 1) <= k
    ensures s < 16 ==> k < Limit(z.lens, s)
  {
    MsbFirstBound(v, 16);
    Pow2Of16();
    if k < Limit(z.lens, FAST_BITS) {
      ghost var i := CodeBelow(z.lens, v, FAST_BITS);
      assert false;
    }
    s := FAST_BITS + 1;
    while k >= z.maxcode[s]
      invariant FAST_BITS < s <= 16
      invariant k >= Limit(z.lens, s - 1)
      decreases 16 - s
    {
      assert s <= 15 ==> z.Row(s);
      s := s + 1;
    }
    assert s <= 15 ==> z.Row(s);
  }

  /** The search's slot arithmetic lands on the symbol whose codeword is next. */
  lemma SymbolAt(lens: seq<nat>, v: nat, s: nat) returns (i: nat)
    requires Lengths(lens) && FAST_BITS < s <= 15
    requires Limit(lens, s - 1) <= MsbFirst(v, 16) < Limit(lens, s)
    ensures Next(lens, v, i) && lens[i] == s
    ensures Shr(MsbFirst(v, 16), 16 - s) - First(lens, s) + Base(lens, s) == Slot(lens, i)
  {
    LimitMono(lens, s - 1, s);
    i := CodeInGap(lens, v, s);
    MsbFirstPrefix(v, 16, s);
  }

  lemma NextBelowLimit(lens: seq<nat>, v: nat, i: nat)
    requires Lengths(lens) && Next(lens, v, i)
    ensures MsbFirst(v, 16) < Limit(lens, 15)
  {
    NextInterval(lens, v, i);
    if lens[i] < 15 { LimitMono(lens, lens[i], 15); }
  }
}
