/** Canonical Huffman tables of stb_image's zlib decoder: a 512-entry table for codes of at most
    nine bits and a shifted-maximum search for the longer ones. */
module ZHuffman {
  import opened Bits

  const FAST_BITS := 9
  const NSYMS := 288

  // ----- the canonical code of RFC 1951, section 3.2.2 -----

  /** How many symbols have code length s. */
  function Count(lens: seq<nat>, s: nat): nat {
    if lens == [] then 0
    else Count(lens[..|lens| - 1], s) + if lens[|lens| - 1] == s then 1 else 0
  }

  /** The smallest code of length s. */
  function First(lens: seq<nat>, s: nat): nat {
    if s <= 1 then 0 else 2 * (First(lens, s - 1) + Count(lens, s - 1))
  }

  /** How many symbols have a shorter (nonzero) code length. */
  function Base(lens: seq<nat>, s: nat): nat {
    if s <= 1 then 0 else Base(lens, s - 1) + Count(lens, s - 1)
  }

  /** How many earlier symbols share symbol i's length. */
  function Rank(lens: seq<nat>, i: nat): nat
    requires i < |lens|
  {
    Count(lens[..i], lens[i])
  }

  function Code(lens: seq<nat>, i: nat): nat
    requires i < |lens|
  {
    First(lens, lens[i]) + Rank(lens, i)
  }

  predicate Lengths(lens: seq<nat>) {
    |lens| <= NSYMS && forall i :: 0 <= i < |lens| ==> lens[i] <= 15
  }

  predicate FitsAt(lens: seq<nat>, s: nat) {
    First(lens, s) + Count(lens, s) <= Pow2(s)
  }

  /** No length has more codes than there is room for. */
  predicate Fits(lens: seq<nat>, upTo: nat) {
    forall s :: 1 <= s <= upTo ==> FitsAt(lens, s)
  }

  /** The Kraft sum, scaled by 2^15. */
  function Kraft(lens: seq<nat>): nat
    requires forall i :: 0 <= i < |lens| ==> lens[i] <= 15
  {
    if lens == [] then 0
    else Kraft(lens[..|lens| - 1]) + if lens[|lens| - 1] == 0 then 0 else Pow2(15 - lens[|lens| - 1])
  }

  /** The codeword of symbol i is the next thing in the bit stream v. */
  predicate Next(lens: seq<nat>, v: nat, i: nat) {
    i < |lens| && lens[i] > 0 && MsbFirst(v, lens[i]) == Code(lens, i)
  }

  // ----- counting -----

  lemma {:induction false} CountPrefix(lens: seq<nat>, i: nat, s: nat)
    requires i < |lens|
    ensures Count(lens[..i], s) + (if lens[i] == s then 1 else 0) <= Count(lens, s)
  {
    var n := |lens| - 1;
    if i < n {
      CountPrefix(lens[..n], i, s);
      assert lens[..n][..i] == lens[..i];
    }
  }

  lemma CountStep(lens: seq<nat>, i: nat, s: nat)
    requires i < |lens|
    ensures Count(lens[..i + 1], s) == Count(lens[..i], s) + if lens[i] == s then 1 else 0
  {
    assert lens[..i + 1][..i] == lens[..i];
  }

  lemma RankBound(lens: seq<nat>, i: nat)
    requires i < |lens|
    ensures Rank(lens, i) < Count(lens, lens[i])
  {
    CountPrefix(lens, i, lens[i]);
  }

  lemma {:induction false} RankIncreases(lens: seq<nat>, i: nat, j: nat)
    requires i < j < |lens| && lens[i] == lens[j]
    ensures Rank(lens, i) < Rank(lens, j)
  {
    CountPrefix(lens[..j], i, lens[i]);
    assert lens[..j][..i] == lens[..i];
  }

  /** Every rank below the count belongs to some symbol. */
  lemma {:induction false} RankOnto(lens: seq<nat>, s: nat, r: nat) returns (i: nat)
    requires r < Count(lens, s)
    ensures i < |lens| && lens[i] == s && Rank(lens, i) == r
  {
    var n := |lens| - 1;
    if r < Count(lens[..n], s) {
      i := RankOnto(lens[..n], s, r);
      assert lens[..n][..i] == lens[..i];
    } else {
      i := n;
    }
  }

  lemma {:induction false} CountTotal(lens: seq<nat>, s: nat)
    ensures Base(lens, s) + (if s > 0 then Count(lens, s) else 0) <= |lens|
  {
    if lens == [] {
      CountEmpty(s);
    } else {
      CountTotal(lens[..|lens| - 1], s);
      BaseStep(lens, s);
    }
  }

  lemma {:induction false} CountEmpty(s: nat)
    ensures Base([], s) == 0
  {
    if s > 1 { CountEmpty(s - 1); }
  }

  lemma {:induction false} BaseStep(lens: seq<nat>, s: nat)
    requires lens != []
    ensures var t := lens[|lens| - 1];
            Base(lens, s) == Base(lens[..|lens| - 1], s) + if 0 < t < s then 1 else 0
  {
    if s > 1 { BaseStep(lens, s - 1); }
  }

  lemma {:induction false} BaseMono(lens: seq<nat>, s: nat, t: nat)
    requires 1 <= s < t
    ensures Base(lens, s) + Count(lens, s) <= Base(lens, t)
  {
    if s + 1 < t { BaseMono(lens, s, t - 1); }
  }

  // ----- acceptance is the Kraft inequality -----

  lemma {:induction false} ReachStep(lens: seq<nat>, s: nat)
    requires lens != [] && s >= 1
    ensures var t := lens[|lens| - 1];
            var init := lens[..|lens| - 1];
            First(lens, s) + Count(lens, s)
            == First(init, s) + Count(init, s) + if 1 <= t <= s then Pow2(s - t) else 0
  {
    if s > 1 { ReachStep(lens, s - 1); }
  }

  lemma {:induction false} KraftIsReach(lens: seq<nat>)
    requires Lengths(lens)
    ensures Kraft(lens) == First(lens, 15) + Count(lens, 15)
  {
    if lens == [] {
      ReachEmpty(15);
    } else {
      KraftIsReach(lens[..|lens| - 1]);
      ReachStep(lens, 15);
    }
  }

  lemma {:induction false} ReachEmpty(s: nat)
    ensures First([], s) == 0
  {
    if s > 1 { ReachEmpty(s - 1); }
  }

  lemma {:induction false} FitsFromLast(lens: seq<nat>, upTo: nat)
    requires upTo >= 1 && First(lens, upTo) + Count(lens, upTo) <= Pow2(upTo)
    ensures Fits(lens, upTo)
  {
    assert FitsAt(lens, upTo);
    if upTo > 1 {
      assert First(lens, upTo) == 2 * (First(lens, upTo - 1) + Count(lens, upTo - 1));
      assert Pow2(upTo) == 2 * Pow2(upTo - 1);
      FitsFromLast(lens, upTo - 1);
    }
  }

  /** A list of lengths leaves room for every code exactly when its Kraft sum is at most one. */
  lemma FitsIffKraft(lens: seq<nat>)
    requires Lengths(lens)
    ensures Fits(lens, 15) <==> Kraft(lens) <= Pow2(15)
  {
    KraftIsReach(lens);
    assert Fits(lens, 15) ==> FitsAt(lens, 15);
    if Kraft(lens) <= Pow2(15) { FitsFromLast(lens, 15); }
  }

  // ----- the code of a symbol is the room taken by the symbols before it -----

  /** The room symbol j takes, in codes of symbol i's length, if it comes before i: shorter codes
      come first, and among codes of one length those of smaller symbols. */
  function RoomBefore(lens: seq<nat>, i: nat, j: nat): nat
    requires i < |lens| && j < |lens|
  {
    if 0 < lens[j] < lens[i] then Pow2(lens[i] - lens[j]) else if lens[j] == lens[i] && j < i then 1 else 0
  }

  function RoomOfFirst(lens: seq<nat>, i: nat, n: nat): nat
    requires i < |lens| && n <= |lens|
  {
    if n == 0 then 0 else RoomOfFirst(lens, i, n - 1) + RoomBefore(lens, i, n - 1)
  }

  /** Codes are handed out in order and without gaps. */
  lemma CodeIsRoom(lens: seq<nat>, i: nat)
    requires i < |lens| && lens[i] > 0
    ensures Code(lens, i) == RoomOfFirst(lens, i, |lens|)
  {
    RoomIs(lens, i, |lens|);
    assert lens[..|lens|] == lens;
  }

  lemma {:induction false} RoomIs(lens: seq<nat>, i: nat, n: nat)
    requires i < |lens| && lens[i] > 0 && n <= |lens|
    ensures RoomOfFirst(lens, i, n) == First(lens[..n], lens[i]) + Count(lens[..if n < i then n else i], lens[i])
  {
    var s := lens[i];
    if n == 0 {
      ReachEmpty(s);
    } else {
      RoomIs(lens, i, n - 1);
      FirstStep(lens, n, s);
      if n <= i { CountStep(lens, n - 1, s); }
    }
  }

  lemma FirstStep(lens: seq<nat>, n: nat, s: nat)
    requires 0 < n <= |lens| && s > 0
    ensures var t := lens[n - 1];
            First(lens[..n], s) == First(lens[..n - 1], s) + if 0 < t < s then Pow2(s - t) else 0
  {
    assert lens[..n][..n - 1] == lens[..n - 1];
    if s > 1 { ReachStep(lens[..n], s - 1); }
  }

  // ----- codes as disjoint intervals of 16-bit words -----

  /** The left-aligned end of all codes of length at most s. */
  function Limit(lens: seq<nat>, s: nat): nat
    requires s <= 16
  {
    Shl(First(lens, s) + Count(lens, s), 16 - s)
  }

  lemma {:induction false} LimitMono(lens: seq<nat>, s: nat, t: nat)
    requires 1 <= s < t <= 16
    decreases t - s
    ensures Limit(lens, s) == Shl(First(lens, s + 1), 16 - (s + 1))
    ensures Limit(lens, s) <= Shl(First(lens, t), 16 - t) <= Limit(lens, t)
  {
    var x := First(lens, s) + Count(lens, s);
    ShlShl(x, 1, 16 - (s + 1));
    assert Shl(x, 1) == 2 * x;
    ShlMono(First(lens, t), First(lens, t) + Count(lens, t), 16 - t);
    if s + 1 < t {
      ShlMono(First(lens, s + 1), First(lens, s + 1) + Count(lens, s + 1), 16 - (s + 1));
      LimitMono(lens, s + 1, t);
    }
  }

  /** Reading s bits gives code c exactly when the 16-bit reading lies in c's interval. */
  lemma ReadInterval(v: nat, s: nat, c: nat)
    requires s <= 16
    ensures MsbFirst(v, s) == c <==> Shl(c, 16 - s) <= MsbFirst(v, 16) < Shl(c + 1, 16 - s)
  {
    var k := MsbFirst(v, 16);
    MsbFirstPrefix(v, 16, s);
    Split(k, 16 - s);
    LowBound(k, 16 - s);
    var h := Shr(k, 16 - s);
    ShlAdd(h, 1, 16 - s);
    ShlAdd(c, 1, 16 - s);
    ShlOne(16 - s);
    ShlMono(h, c, 16 - s);
    ShlMono(h + 1, c + 1, 16 - s);
    ShlMono(c, h, 16 - s);
    ShlMono(c + 1, h + 1, 16 - s);
    if h < c { ShlMono(h + 1, c, 16 - s); }
    if c < h { ShlMono(c + 1, h, 16 - s); }
  }

  lemma NextInterval(lens: seq<nat>, v: nat, i: nat)
    requires Lengths(lens) && Next(lens, v, i)
    ensures lens[i] <= 15
    ensures var s := lens[i]; var k := MsbFirst(v, 16);
            Shl(First(lens, s), 16 - s) <= k < Limit(lens, s)
  {
    var s := lens[i];
    ReadInterval(v, s, Code(lens, i));
    RankBound(lens, i);
    ShlMono(First(lens, s), Code(lens, i), 16 - s);
    ShlMono(Code(lens, i) + 1, First(lens, s) + Count(lens, s), 16 - s);
  }

  /** Prefix freedom: at most one symbol's codeword is next in any stream. */
  lemma PrefixFree(lens: seq<nat>, v: nat, i: nat, j: nat)
    requires Lengths(lens) && Next(lens, v, i) && Next(lens, v, j)
    ensures i == j
  {
    NextInterval(lens, v, i);
    NextInterval(lens, v, j);
    if lens[i] < lens[j] { LimitMono(lens, lens[i], lens[j]); }
    if lens[j] < lens[i] { LimitMono(lens, lens[j], lens[i]); }
    if i < j { RankIncreases(lens, i, j); }
    if j < i { RankIncreases(lens, j, i); }
  }

  /** A 16-bit reading below a limit and not below the previous one names a symbol. */
  lemma CodeInGap(lens: seq<nat>, v: nat, s: nat) returns (i: nat)
    requires Lengths(lens) && 1 <= s <= 15
    requires Shl(First(lens, s), 16 - s) <= MsbFirst(v, 16) < Limit(lens, s)
    ensures Next(lens, v, i) && lens[i] == s
    ensures First(lens, s) <= MsbFirst(v, s) && Rank(lens, i) == MsbFirst(v, s) - First(lens, s)
  {
    var h := MsbFirst(v, s);
    ReadInterval(v, s, h);
    if h < First(lens, s) { ShlMono(h + 1, First(lens, s), 16 - s); }
    if h >= First(lens, s) + Count(lens, s) { ShlMono(First(lens, s) + Count(lens, s), h, 16 - s); }
    i := RankOnto(lens, s, h - First(lens, s));
  }

  /** Below the limit of length t, some symbol of at most that length is next. */
  lemma {:induction false} CodeBelow(lens: seq<nat>, v: nat, t: nat) returns (i: nat)
    requires Lengths(lens) && 1 <= t <= 15 && MsbFirst(v, 16) < Limit(lens, t)
    ensures Next(lens, v, i) && lens[i] <= t
  {
    if t > 1 {
      LimitMono(lens, t - 1, t);
      if MsbFirst(v, 16) < Limit(lens, t - 1) {
        i := CodeBelow(lens, v, t - 1);
        return;
      }
    } else {
      ShlOne(15);
    }
    i := CodeInGap(lens, v, t);
  }

  lemma CodeFits(lens: seq<nat>, i: nat)
    requires Lengths(lens) && Fits(lens, 15) && i < |lens| && lens[i] > 0
    ensures Code(lens, i) < Pow2(lens[i])
  {
    assert FitsAt(lens, lens[i]);
    RankBound(lens, i);
  }

  // ----- bit reversal -----

  /** One round: the bits under the mask hi move down by w, those under lo move up. */
  function Round(v: nat, hi: nat, lo: nat, w: nat): nat {
    Or(Shr(And(v, hi), w), Shl(And(v, lo), w))
  }

  function BitReverse16(v: nat): nat {
    var n1 := Round(v, 0xAAAA, 0x5555, 1);
    var n2 := Round(n1, 0xCCCC, 0x3333, 2);
    var n4 := Round(n2, 0xF0F0, 0x0F0F, 4);
    Round(n4, 0xFF00, 0x00FF, 8)
  }

  ghost predicate ByteMaskBits(i: nat) {
    && Bit(0xAA, i) == (i % 2 == 1) && Bit(0x55, i) == (i % 2 == 0)
    && Bit(0xCC, i) == (i % 4 >= 2) && Bit(0x33, i) == (i % 4 < 2)
    && Bit(0xF0, i) == (i >= 4) && Bit(0x0F, i) == (i < 4)
    && Bit(0xFF, i) && !Bit(0, i)
  }

  lemma BitOfBytes(lo: nat, hi: nat, i: nat)
    requires lo < 256
    ensures Bit(lo + 256 * hi, i) == if i < 8 then Bit(lo, i) else Bit(hi, i - 8)
  {
    assert Pow2(8) == 2 * (2 * (2 * (2 * Pow2(4)))) && Pow2(4) == 16;
    assert Shl(hi, 1) == 2 * hi;
    assert Shl(hi, 2) == 4 * hi && Shl(hi, 4) == 4 * Shl(hi, 2);
    assert Shl(hi, 6) == 4 * Shl(hi, 4) && Shl(hi, 8) == 4 * Shl(hi, 6);
    SplitUnique(lo, hi, 8);
    var a := lo + 256 * hi;
    if i < 8 { BitLow(a, 8, i); } else { BitShr(a, 8, i - 8); }
  }

  lemma ByteMasksHold(i: nat)
    requires i < 8
    ensures ByteMaskBits(i)
  {
    assert ByteMaskBits(0) && ByteMaskBits(1) && ByteMaskBits(2) && ByteMaskBits(3);
    assert ByteMaskBits(4) && ByteMaskBits(5) && ByteMaskBits(6) && ByteMaskBits(7);
  }

  lemma Pow2Of16()
    ensures Pow2(8) == 256 && Pow2(9) == 512 && Pow2(15) == 0x8000 && Pow2(16) == 0x10000
  {
    assert Pow2(4) == 16 && Pow2(8) == 16 * Pow2(4);
    assert Pow2(12) == 16 * Pow2(8) && Pow2(16) == 16 * Pow2(12);
  }

  lemma RoundBit(n: nat, hi: nat, lo: nat, w: nat, i: nat)
    ensures Bit(Round(n, hi, lo, w), i)
         == ((Bit(n, i + w) && Bit(hi, i + w)) || (i >= w && Bit(n, i - w) && Bit(lo, i - w)))
  {
    BitOr(Shr(And(n, hi), w), Shl(And(n, lo), w), i);
    BitShr(And(n, hi), w, i);
    BitAnd(n, hi, i + w);
    BitShl(And(n, lo), w, i);
    if i >= w { BitAnd(n, lo, i - w); }
  }

  /** Where the masks choose between the two shifted words. */
  lemma SwapAt(n: nat, hi: nat, lo: nat, w: nat, i: nat, up: bool)
    requires Bit(hi, i + w) == up && (i >= w ==> Bit(lo, i - w) == !up) && (i < w ==> up)
    ensures Bit(Round(n, hi, lo, w), i) == Bit(n, if up then i + w else i - w)
  {
    RoundBit(n, hi, lo, w, i);
  }

  // Each round swaps neighbouring groups of bits: of 1, then 2, then 4, then 8.

  lemma MaskAt(lo: nat, hi: nat, i: nat)
    requires lo < 256 && hi < 256
    ensures Bit(lo + 256 * hi, i) == if i < 8 then Bit(lo, i) else i < 16 && Bit(hi, i - 8)
  {
    BitOfBytes(lo, hi, i);
    if i >= 16 { Pow2Of16(); BitsPast(hi, 8, i - 8); }
  }

  lemma Swap1(n: nat, q: nat, d: nat)
    requires q < 8 && d < 2
    ensures Bit(Round(n, 0xAAAA, 0x5555, 1), 2 * q + d) == Bit(n, 2 * q + 1 - d)
  {
    var i := 2 * q + d;
    Mask1(i + 1);
    if i >= 1 { Mask1(i - 1); }
    SwapAt(n, 0xAAAA, 0x5555, 1, i, d == 0);
  }

  lemma Mask1(i: nat)
    ensures Bit(0xAAAA, i) == (i < 16 && i % 2 == 1)
    ensures Bit(0x5555, i) == (i < 16 && i % 2 == 0)
  {
    MaskAt(0xAA, 0xAA, i);
    MaskAt(0x55, 0x55, i);
    if i < 16 { ByteMasksHold(if i < 8 then i else i - 8); }
  }

  lemma Swap2(n: nat, q: nat, c: nat, r: nat)
    requires q < 4 && c < 2 && r < 2
    ensures Bit(Round(n, 0xCCCC, 0x3333, 2), 4 * q + 2 * c + r) == Bit(n, 4 * q + 2 * (1 - c) + r)
  {
    var i := 4 * q + 2 * c + r;
    Mask2(i + 2);
    if i >= 2 { Mask2(i - 2); }
    SwapAt(n, 0xCCCC, 0x3333, 2, i, c == 0);
  }

  lemma Mask2(i: nat)
    ensures Bit(0xCCCC, i) == (i < 16 && i % 4 >= 2)
    ensures Bit(0x3333, i) == (i < 16 && i % 4 < 2)
  {
    MaskAt(0xCC, 0xCC, i);
    MaskAt(0x33, 0x33, i);
    if i < 16 { ByteMasksHold(if i < 8 then i else i - 8); }
  }

  lemma Swap4(n: nat, q: nat, b: nat, r: nat)
    requires q < 2 && b < 2 && r < 4
    ensures Bit(Round(n, 0xF0F0, 0x0F0F, 4), 8 * q + 4 * b + r) == Bit(n, 8 * q + 4 * (1 - b) + r)
  {
    var i := 8 * q + 4 * b + r;
    assert (i + 4) % 8 == if b == 0 then r + 4 else r;
    Mask4(i + 4);
    if i >= 4 { Mask4(i - 4); }
    SwapAt(n, 0xF0F0, 0x0F0F, 4, i, b == 0);
  }

  lemma Mask4(i: nat)
    ensures Bit(0xF0F0, i) == (i < 16 && i % 8 >= 4)
    ensures Bit(0x0F0F, i) == (i < 16 && i % 8 < 4)
  {
    MaskAt(0xF0, 0xF0, i);
    MaskAt(0x0F, 0x0F, i);
    if i < 16 { ByteMasksHold(if i < 8 then i else i - 8); }
  }

  lemma Swap8(n: nat, a: nat, r: nat)
    requires a < 2 && r < 8
    ensures Bit(Round(n, 0xFF00, 0x00FF, 8), 8 * a + r) == Bit(n, 8 * (1 - a) + r)
  {
    var i := 8 * a + r;
    Mask8(i + 8);
    if i >= 8 { Mask8(i - 8); }
    SwapAt(n, 0xFF00, 0x00FF, 8, i, a == 0);
  }

  lemma Mask8(i: nat)
    ensures Bit(0xFF00, i) == (8 <= i < 16)
    ensures Bit(0x00FF, i) == (i < 8)
  {
    MaskAt(0x00, 0xFF, i);
    MaskAt(0xFF, 0x00, i);
    BitZero(i);
    if i >= 8 { BitZero(i - 8); }
    if i < 16 { ByteMasksHold(if i < 8 then i else i - 8); }
  }

  /** The four mask-and-shift rounds reverse the 16 low bits. */
  lemma BitReverse16IsMsbFirst(v: nat)
    ensures BitReverse16(v) == MsbFirst(v, 16)
  {
    forall i: nat ensures Bit(BitReverse16(v), i) == Bit(MsbFirst(v, 16), i) {
      BitMsbFirst(v, 16, i);
      ReversedBit(v, i);
    }
    BitExtensional(BitReverse16(v), MsbFirst(v, 16));
  }

  lemma ReversedBit(v: nat, i: nat)
    ensures Bit(BitReverse16(v), i) == (i < 16 && Bit(v, 15 - i))
  {
    if i < 16 {
      var a, r8 := i / 8, i % 8;
      var b, r4 := r8 / 4, r8 % 4;
      ReversedBitAt(v, a, b, r4 / 2, r4 % 2);
    } else {
      var n4 := Round(Round(Round(v, 0xAAAA, 0x5555, 1), 0xCCCC, 0x3333, 2), 0xF0F0, 0x0F0F, 4);
      RoundBit(n4, 0xFF00, 0x00FF, 8, i);
      Mask8(i + 8);
      Mask8(i - 8);
    }
  }

  lemma ReversedBitAt(v: nat, a: nat, b: nat, c: nat, d: nat)
    requires a < 2 && b < 2 && c < 2 && d < 2
    ensures var i := 8 * a + 4 * b + 2 * c + d; Bit(BitReverse16(v), i) == Bit(v, 15 - i)
  {
    var n1 := Round(v, 0xAAAA, 0x5555, 1);
    var n2 := Round(n1, 0xCCCC, 0x3333, 2);
    var n4 := Round(n2, 0xF0F0, 0x0F0F, 4);
    Swap8(n4, a, 4 * b + 2 * c + d);
    Swap4(n2, 1 - a, b, 2 * c + d);
    Swap2(n1, 2 * (1 - a) + 1 - b, c, d);
    Swap1(v, 4 * (1 - a) + 2 * (1 - b) + 1 - c, d);
  }

  /** Reverse 16 bits and shift the unwanted ones away. */
  method BitReverse(v: nat, bits: nat) returns (r: nat)
    requires bits <= 16
    ensures r == MsbFirst(v, bits)
  {
    BitReverse16IsMsbFirst(v);
    MsbFirstPrefix(v, 16, bits);
    r := Shr(BitReverse16(v), 16 - bits);
  }

  // ----- the decoder's tables -----

  /** Where symbol i is kept in the tables ordered by code. */
  function Slot(lens: seq<nat>, i: nat): nat
    requires i < |lens|
  {
    Base(lens, lens[i]) + Rank(lens, i)
  }

  lemma SlotsDistinct(lens: seq<nat>, i: nat, j: nat)
    requires i < j < |lens| && lens[i] > 0 && lens[j] > 0
    ensures Slot(lens, i) != Slot(lens, j)
  {
    RankBound(lens, i);
    RankBound(lens, j);
    if lens[i] < lens[j] { BaseMono(lens, lens[i], lens[j]); }
    if lens[j] < lens[i] { BaseMono(lens, lens[j], lens[i]); }
    if lens[i] == lens[j] { RankIncreases(lens, i, j); }
  }

  function Packed(i: nat, s: nat): nat {
    Or(Shl(s, FAST_BITS), i)
  }

  /** What the first n symbols leave in entry j of the fast table. */
  function FastAt(lens: seq<nat>, n: nat, j: nat): nat
    requires n <= |lens|
  {
    if n == 0 then 0
    else if 0 < lens[n - 1] <= FAST_BITS && Next(lens, j, n - 1) then Packed(n - 1, lens[n - 1])
    else FastAt(lens, n - 1, j)
  }

  lemma FastStep(lens: seq<nat>, i: nat, j: nat)
    requires Lengths(lens) && Fits(lens, 15) && i < |lens| && 0 < lens[i] <= FAST_BITS
    ensures FastAt(lens, i + 1, j)
         == if Low(j, lens[i]) == MsbFirst(Code(lens, i), lens[i]) then Packed(i, lens[i]) else FastAt(lens, i, j)
  {
    CodeFits(lens, i);
    MsbFirstInverse(j, lens[i], Code(lens, i));
  }

  lemma PackedFields(i: nat, s: nat)
    requires i < NSYMS && 0 < s <= 15
    ensures 0 < Packed(i, s) < 0x10000
    ensures Shr(Packed(i, s), 9) == s && And(Packed(i, s), 511) == i
  {
    Pow2Of16();
    PackFields(i, s, 9);
    ShlMono(1, s, 9);
    ShlOne(9);
    ShlSixteen(s);
  }

  lemma ShlSixteen(s: nat)
    requires s <= 15
    ensures Shl(s, 9) <= 7680
  {
    ShlMono(s, 15, 9);
    assert Shl(15, 1) == 30;
    assert Shl(15, 3) == 120 && Shl(15, 5) == 4 * Shl(15, 3);
    assert Shl(15, 7) == 4 * Shl(15, 5) && Shl(15, 9) == 4 * Shl(15, 7);
  }

  /** The fast table answers for the nine buffered bits exactly when a short codeword is next. */
  lemma {:induction false} FastIsNext(lens: seq<nat>, n: nat, v: nat)
    requires Lengths(lens) && n <= |lens|
    ensures FastSays(lens, n, v, FastAt(lens, n, Low(v, FAST_BITS)))
  {
    if n > 0 {
      FastIsNext(lens, n - 1, v);
      var s, b := lens[n - 1], FastAt(lens, n - 1, Low(v, FAST_BITS));
      if 0 < s <= FAST_BITS { MsbFirstLow(v, s, FAST_BITS); }
      FastMore(lens, n - 1, v, b);
    }
  }

  /** An entry b of the fast table is right about the first n symbols: it names the short one that is
      next, or is zero if there is none. */
  ghost predicate FastSays(lens: seq<nat>, n: nat, v: nat, b: nat)
    requires n <= |lens|
  {
    if b == 0 then forall i :: 0 <= i < n && Next(lens, v, i) ==> lens[i] > FAST_BITS
    else And(b, 511) < n && Next(lens, v, And(b, 511)) && Shr(b, 9) == lens[And(b, 511)] <= FAST_BITS
  }

  lemma FastMore(lens: seq<nat>, n: nat, v: nat, b: nat)
    requires Lengths(lens) && n < |lens| && FastSays(lens, n, v, b)
    ensures FastSays(lens, n + 1, v, if 0 < lens[n] <= FAST_BITS && Next(lens, v, n) then Packed(n, lens[n]) else b)
  {
    if 0 < lens[n] <= FAST_BITS { PackedFields(n, lens[n]); }
  }

  class Huffman {
    const fast: array<nat>
    const firstcode: array<nat>
    const maxcode: array<nat>
    const firstsymbol: array<nat>
    const size: array<nat>
    const value: array<nat>
    ghost var lens: seq<nat>

    ghost const Repr: set<object> := {this, fast, firstcode, maxcode, firstsymbol, size, value}

    /** The buffers have their declared sizes and do not overlap. */
    ghost predicate Shape() {
      && fast.Length == 512 && firstcode.Length == 16 && maxcode.Length == 17
      && firstsymbol.Length == 16 && size.Length == NSYMS && value.Length == NSYMS
      && fast != firstcode && fast != maxcode && fast != firstsymbol && fast != size && fast != value
      && firstcode != maxcode && firstcode != firstsymbol && firstcode != size && firstcode != value
      && maxcode != firstsymbol && maxcode != size && maxcode != value
      && firstsymbol != size && firstsymbol != value && size != value
    }

    ghost predicate Row(s: nat)
      requires Shape() && 1 <= s <= 15
      reads this, firstcode, firstsymbol, maxcode
    {
      && firstcode[s] == First(lens, s) && firstsymbol[s] == Base(lens, s)
      && maxcode[s] == Limit(lens, s)
    }

    ghost predicate Kept(i: nat)
      requires Shape() && i < |lens|
      reads this, size, value
    {
      lens[i] > 0 ==> Slot(lens, i) < NSYMS && size[Slot(lens, i)] == lens[i] && value[Slot(lens, i)] == i
    }

    /** The tables are those of the code lengths in lens. */
    ghost predicate Valid()
      reads Repr
    {
      && Shape() && Lengths(lens) && Fits(lens, 15)
      && (forall s :: 1 <= s <= 15 ==> Row(s))
      && maxcode[16] == 0x10000
      && (forall i :: 0 <= i < |lens| ==> Kept(i))
      && (forall j :: 0 <= j < 512 ==> fast[j] == FastAt(lens, |lens|, j))
    }

    constructor ()
      ensures Shape() && fresh(Repr)
    {
      fast := new nat[512];
      firstcode := new nat[16];
      maxcode := new nat[17];
      firstsymbol := new nat[16];
      size := new nat[NSYMS];
      value := new nat[NSYMS];
    }

    /** Accepts exactly the lists of lengths whose Kraft sum is at most one, and then leaves the
        tables of their canonical code. */
    method Build(sizelist: seq<nat>) returns (ok: bool)
      requires Shape() && Lengths(sizelist)
      modifies Repr
      ensures ok <==> Kraft(sizelist) <= Pow2(15)
      ensures ok ==> Valid() && lens == sizelist
    {
      FitsIffKraft(sizelist);
      lens := sizelist;
      forall j | 0 <= j < 512 { fast[j] := 0; }
      var sizes := CountSizes(sizelist);
      var next_code := new nat[16](_ => 0);
      for i := 1 to 16
        modifies {}
      {
        if sizes[i] > Shl(1, i) {
          TooMany(sizelist, i);
          return false;
        }
      }
      ok := FillRows(sizes, next_code);
      if ok { FillSymbols(sizelist, next_code); }
    }

    static lemma TooMany(sizelist: seq<nat>, i: nat)
      requires Lengths(sizelist) && 1 <= i <= 15 && Count(sizelist, i) > Shl(1, i)
      ensures !Fits(sizelist, 15)
    {
      ShlOne(i);
      assert !FitsAt(sizelist, i);
    }

    static method CountSizes(sizelist: seq<nat>) returns (sizes: array<nat>)
      requires Lengths(sizelist)
      ensures fresh(sizes) && sizes.Length == 17
      ensures forall s {:trigger sizes[s]} :: 1 <= s <= 15 ==> sizes[s] == Count(sizelist, s)
    {
      sizes := new nat[17](_ => 0);
      for i := 0 to |sizelist|
        invariant forall s {:trigger sizes[s]} :: 1 <= s <= 15 ==> sizes[s] == Count(sizelist[..i], s)
      {
        assert sizelist[..i + 1][..i] == sizelist[..i];
        sizes[sizelist[i]] := sizes[sizelist[i]] + 1;
      }
      assert sizelist[..|sizelist|] == sizelist;
      sizes[0] := 0;
    }

    /** Nothing is truncated when a row is stored. */
    static lemma RowBounds(lens: seq<nat>, i: nat)
      requires Lengths(lens) && 1 <= i <= 15 && First(lens, i) <= Pow2(i)
      ensures First(lens, i) < 0x10000 && Base(lens, i) < 0x10000
      ensures Shl(1, i) == Pow2(i)
      ensures Shl(First(lens, i) + Count(lens, i), 1) == First(lens, i + 1)
      ensures First(lens, i) + Count(lens, i) <= Pow2(i) <==> FitsAt(lens, i)
      ensures First(lens, i) + Count(lens, i) <= Pow2(i) ==> First(lens, i + 1) <= Pow2(i + 1)
      ensures Base(lens, i + 1) == Base(lens, i) + Count(lens, i)
      ensures Count(lens[..0], i) == 0
    {
      Pow2Mono(i, 15);
      Pow2Of16();
      CountTotal(lens, i);
      ShlOne(i);
      assert lens[..0] == [];
      var x := First(lens, i) + Count(lens, i);
      assert Shl(x, 0) == x;
      assert Shl(x, 1) == 2 * x;
    }

    /** The rows of the lengths up to upTo are in the tables. */
    static ghost predicate RowsIn(lens: seq<nat>, upTo: nat, next: seq<nat>, first: seq<nat>, symbol: seq<nat>, limit: seq<nat>)
      requires upTo <= 15 && |next| == |first| == |symbol| == 16 && |limit| == 17
    {
      forall s :: 1 <= s <= upTo ==> RowIs(lens, s, next[s], first[s], symbol[s], limit[s])
    }

    static ghost predicate RowIs(lens: seq<nat>, s: nat, next: nat, first: nat, symbol: nat, limit: nat)
      requires s <= 16
    {
      next == First(lens, s) && first == First(lens, s) && symbol == Base(lens, s) && limit == Limit(lens, s)
    }

    ghost predicate Rows(next_code: array<nat>, upTo: nat)
      requires Shape() && upTo <= 15 && next_code.Length == 16
      reads this, firstcode, firstsymbol, maxcode, next_code
    {
      RowsIn(lens, upTo, next_code[..], firstcode[..], firstsymbol[..], maxcode[..])
    }

    /** The loop over code lengths: first codes, first symbols and pre-shifted limits. */
    method FillRows(sizes: array<nat>, next_code: array<nat>) returns (ok: bool)
      requires Shape() && Lengths(lens)
      requires sizes.Length == 17 && next_code.Length == 16
      requires forall s {:trigger sizes[s]} :: 1 <= s <= 15 ==> sizes[s] == Count(lens, s)
      requires sizes !in Repr && next_code !in Repr && sizes != next_code
      modifies firstcode, maxcode, firstsymbol, next_code
      ensures ok <==> Fits(lens, 15)
      ensures ok ==> maxcode[16] == 0x10000 && Rows(next_code, 15)
    {
      var code: nat, k: nat := 0, 0;
      for i := 1 to 16
        invariant RowsSoFar(i, code, k, next_code)
      {
        var more: bool;
        more, code, k := FillNextRow(i, code, k, sizes[i], next_code);
        if !more { return false; }
      }
      SetSentinel(next_code);
      ok := true;
    }

    /** Before the row of length i. */
    ghost predicate RowsSoFar(i: nat, code: nat, k: nat, next_code: array<nat>)
      requires Shape() && 1 <= i <= 16 && next_code.Length == 16
      reads this, firstcode, firstsymbol, maxcode, next_code
    {
      code == First(lens, i) <= Pow2(i) && k == Base(lens, i) && Fits(lens, i - 1) && Rows(next_code, i - 1)
    }

    /** The body of that loop; it fails exactly when the codes of length i do not fit. */
    method FillNextRow(i: nat, code: nat, k: nat, size: nat, next_code: array<nat>) returns (ok: bool, code': nat, k': nat)
      requires Shape() && Lengths(lens) && 1 <= i <= 15 && next_code.Length == 16 && next_code !in Repr && size == Count(lens, i)
      requires RowsSoFar(i, code, k, next_code)
      modifies firstcode, maxcode, firstsymbol, next_code
      ensures ok ==> RowsSoFar(i + 1, code', k', next_code)
      ensures !ok ==> !Fits(lens, 15)
    {
      RowBounds(lens, i);
      if size != 0 && code + size - 1 >= Shl(1, i) {
        assert !FitsAt(lens, i);
        return false, code, k;
      }
      FillRow(i, code, k, size, next_code);
      return true, Shl(code + size, 1), k + size;
    }

    method SetSentinel(next_code: array<nat>)
      requires Shape() && next_code.Length == 16 && next_code !in Repr && Rows(next_code, 15)
      modifies maxcode
      ensures maxcode[16] == 0x10000 && Rows(next_code, 15)
    {
      maxcode[16] := 0x10000;
    }

    method FillRow(i: nat, code: nat, k: nat, size: nat, next_code: array<nat>)
      requires Shape() && Lengths(lens) && 1 <= i <= 15 && next_code.Length == 16 && next_code !in Repr
      requires code == First(lens, i) <= Pow2(i) && k == Base(lens, i) && size == Count(lens, i)
      requires Rows(next_code, i - 1)
      modifies firstcode, maxcode, firstsymbol, next_code
      ensures Rows(next_code, i)
    {
      RowBounds(lens, i);
      RowAdded(lens, i, next_code[..], firstcode[..], firstsymbol[..], maxcode[..]);
      next_code[i] := code;
      firstcode[i] := code % 0x10000;
      firstsymbol[i] := k % 0x10000;
      maxcode[i] := Shl(code + size, 16 - i);
    }

    static lemma RowAdded(lens: seq<nat>, i: nat, next: seq<nat>, first: seq<nat>, symbol: seq<nat>, limit: seq<nat>)
      requires 1 <= i <= 15 && |next| == |first| == |symbol| == 16 && |limit| == 17
      requires RowsIn(lens, i - 1, next, first, symbol, limit)
      ensures var code := First(lens, i);
              RowsIn(lens, i, next[i := code], first[i := code], symbol[i := Base(lens, i)],
                     limit[i := Shl(code + Count(lens, i), 16 - i)])
    {
      assert RowIs(lens, i, First(lens, i), First(lens, i), Base(lens, i), Limit(lens, i));
    }

    /** The symbols below n with a code have their length and name in their slots. */
    static ghost predicate SlotsFilled(lens: seq<nat>, n: nat, size: seq<nat>, value: seq<nat>)
      requires Lengths(lens) && n <= |lens| && |size| == |value| == NSYMS
    {
      forall i :: 0 <= i < n && lens[i] > 0 ==> var c := Slot(lens, i); c < NSYMS && size[c] == lens[i] && value[c] == i
    }

    static lemma FillSlot(lens: seq<nat>, i: nat, size: seq<nat>, value: seq<nat>)
      requires Lengths(lens) && i < |lens| && |size| == |value| == NSYMS && SlotsFilled(lens, i, size, value)
      requires lens[i] > 0 && Slot(lens, i) < NSYMS
      ensures SlotsFilled(lens, i + 1, size[Slot(lens, i) := lens[i]], value[Slot(lens, i) := i])
    {
      forall i' | 0 <= i' < i && lens[i'] > 0 ensures Slot(lens, i') != Slot(lens, i) { SlotsDistinct(lens, i', i); }
    }

    /** After n symbols, next[s] is the code of the next symbol of length s. */
    static ghost predicate NextCodes(lens: seq<nat>, n: nat, next: seq<nat>)
      requires Lengths(lens) && n <= |lens| && |next| == 16
    {
      forall s :: 1 <= s <= 15 ==> next[s] == First(lens, s) + Count(lens[..n], s)
    }

    static lemma AdvanceCode(lens: seq<nat>, i: nat, next: seq<nat>)
      requires Lengths(lens) && i < |lens| && |next| == 16 && NextCodes(lens, i, next)
      ensures var s := lens[i]; NextCodes(lens, i + 1, if s > 0 then next[s := next[s] + 1] else next)
    {
      forall s | 1 <= s <= 15 ensures Count(lens[..i + 1], s) == Count(lens[..i], s) + if s == lens[i] then 1 else 0 {
        CountStep(lens, i, s);
      }
    }

    /** Before symbol n. */
    ghost predicate SymbolsSoFar(n: nat, next_code: array<nat>)
      requires Shape() && Lengths(lens) && n <= |lens| && next_code.Length == 16
      reads this, fast, size, value, next_code
    {
      && NextCodes(lens, n, next_code[..]) && SlotsFilled(lens, n, size[..], value[..])
      && forall j {:trigger fast[j]} :: 0 <= j < 512 ==> fast[j] == FastAt(lens, n, j)
    }

    /** The loop over symbols: slots in code order and replicated fast entries. */
    method FillSymbols(sizelist: seq<nat>, next_code: array<nat>)
      requires lens == sizelist && Shape() && Lengths(lens) && Fits(lens, 15)
      requires next_code.Length == 16 && next_code !in Repr
      requires Rows(next_code, 15)
      requires maxcode[16] == 0x10000
      requires forall j :: 0 <= j < 512 ==> fast[j] == 0
      modifies fast, size, value, next_code
      ensures Valid()
    {
      Started(next_code);
      assert forall s :: 1 <= s <= 15 ==> Row(s);
      for i := 0 to |sizelist|
        invariant SymbolsSoFar(i, next_code)
      {
        FillNextSymbol(i, sizelist[i], next_code);
      }
      forall i | 0 <= i < |lens| ensures Kept(i) {
        assert SlotsFilled(lens, |lens|, size[..], value[..]);
      }
    }

    lemma Started(next_code: array<nat>)
      requires Shape() && Lengths(lens) && next_code.Length == 16 && Rows(next_code, 15)
      requires forall j :: 0 <= j < 512 ==> fast[j] == 0
      ensures SymbolsSoFar(0, next_code)
    {
      assert lens[..0] == [];
    }

    /** The body of that loop. */
    method FillNextSymbol(i: nat, s: nat, next_code: array<nat>)
      requires Shape() && Lengths(lens) && Fits(lens, 15) && i < |lens| && s == lens[i]
      requires next_code.Length == 16 && next_code !in Repr
      requires forall t :: 1 <= t <= 15 ==> Row(t)
      requires SymbolsSoFar(i, next_code)
      modifies fast, size, value, next_code
      ensures SymbolsSoFar(i + 1, next_code)
    {
      AdvanceCode(lens, i, next_code[..]);
      if s > 0 {
        ghost var size0, value0 := size[..], value[..];
        assert next_code[..][s] == Code(lens, i) && Row(s);
        PlaceSymbol(i, s, next_code);
        FillSlot(lens, i, size0, value0);
      }
    }

    /** The body of that loop for one symbol with a code. */
    method PlaceSymbol(i: nat, s: nat, next_code: array<nat>)
      requires Shape() && Lengths(lens) && Fits(lens, 15) && i < |lens| && 0 < s == lens[i]
      requires next_code.Length == 16 && next_code !in Repr
      requires next_code[s] == Code(lens, i) && Row(s)
      requires forall j {:trigger fast[j]} :: 0 <= j < 512 ==> fast[j] == FastAt(lens, i, j)
      modifies fast, size, value, next_code
      ensures Slot(lens, i) < NSYMS
      ensures size[..] == old(size[..])[Slot(lens, i) := s]
      ensures value[..] == old(value[..])[Slot(lens, i) := i]
      ensures next_code[..] == old(next_code[..])[s := Code(lens, i) + 1]
      ensures forall j {:trigger fast[j]} :: 0 <= j < 512 ==> fast[j] == FastAt(lens, i + 1, j)
    {
      RankBound(lens, i);
      CountTotal(lens, s);
      var code := next_code[s];
      var c := code - firstcode[s] + firstsymbol[s];
      size[c] := s;
      value[c] := i;
      if s <= FAST_BITS { FillFastFor(i, s, code); }
      next_code[s] := next_code[s] + 1;
    }

    method FillFastFor(i: nat, s: nat, code: nat)
      requires Shape() && Lengths(lens) && Fits(lens, 15)
      requires i < |lens| && 0 < s == lens[i] <= FAST_BITS && code == Code(lens, i)
      requires forall j {:trigger fast[j]} :: 0 <= j < 512 ==> fast[j] == FastAt(lens, i, j)
      modifies fast
      ensures forall j {:trigger fast[j]} :: 0 <= j < 512 ==> fast[j] == FastAt(lens, i + 1, j)
    {
      ghost var was := fast[..];
      CodeFits(lens, i);
      PackedFields(i, s);
      FillFast(s, code, Packed(i, s) % 0x10000);
      FastFilled(was, fast[..], i);
    }

    lemma FastFilled(was: seq<nat>, now: seq<nat>, i: nat)
      requires Lengths(lens) && Fits(lens, 15) && i < |lens| && 0 < lens[i] <= FAST_BITS && |was| == |now| == 512
      requires forall j {:trigger was[j]} :: 0 <= j < 512 ==> was[j] == FastAt(lens, i, j)
      requires forall j {:trigger now[j]} :: 0 <= j < 512 ==>
        now[j] == if Low(j, lens[i]) == MsbFirst(Code(lens, i), lens[i]) then Packed(i, lens[i]) else was[j]
      ensures forall j {:trigger now[j]} :: 0 <= j < 512 ==> now[j] == FastAt(lens, i + 1, j)
    {
      forall j | 0 <= j < 512 ensures now[j] == FastAt(lens, i + 1, j) {
        assert was[j] == FastAt(lens, i, j);
        FastStep(lens, i, j);
      }
    }

    /** Writes fastv at every index whose s low bits are the reversed code. */
    method FillFast(s: nat, code: nat, fastv: nat)
      requires fast.Length == 512 && s <= 16 && code < Pow2(s)
      modifies fast
      ensures forall x {:trigger fast[x]} :: 0 <= x < 512 ==>
        fast[x] == if Low(x, s) == MsbFirst(code, s) then fastv else old(fast[x])
    {
      var j := BitReverse(code, s);
      ghost var rev := j;
      MsbFirstBound(code, s);
      LowSmall(rev, s);
      forall x: nat | x < j && Low(x, s) == rev ensures false { LowApart(x, j, s); }
      while j < 512
        invariant Low(j, s) == rev
        invariant forall x {:trigger fast[x]} :: 0 <= x < 512 ==>
          fast[x] == if x < j && Low(x, s) == rev then fastv else old(fast[x])
        decreases 512 - j
      {
        forall x: nat | j <= x < j + Pow2(s) && Low(x, s) == rev ensures x == j { LowApart(j, x, s); }
        fast[j] := fastv;
        ShlOne(s);
        LowPeriodic(j, s);
        j := j + Shl(1, s);
      }
    }
  }
}
