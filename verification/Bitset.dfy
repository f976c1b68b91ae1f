// The fixed-size bit array of src/common/bitArray.h, over 64-bit words, as a set of indices.
module Bitset {
  import opened Bits

  // ----- 64-bit words -----

  type Word = x: nat | x < Pow2(64)

  function Ones(): Word { Pow2(64) - 1 }

  function Not(x: Word): Word { Pow2(64) - 1 - x }

  /** `<<`, dropping what leaves the word. */
  function Left(x: Word, k: nat): Word {
    LowBound(Shl(x, k), 64);
    Low(Shl(x, k), 64)
  }

  function Right(x: Word, k: nat): Word {
    ShrSmall(x, k);
    Shr(x, k)
  }

  function Both(x: Word, y: Word): Word {
    AndSmall(x, y);
    And(x, y)
  }

  function Either(x: Word, y: Word): Word {
    OrSmall(x, y, 64);
    Or(x, y)
  }

  lemma {:induction false} ShrSmall(a: nat, k: nat)
    ensures Shr(a, k) <= a
    decreases k
  {
    if k > 0 { ShrSmall(a / 2, k - 1); }
  }

  lemma {:induction false} AndSmall(a: nat, b: nat)
    ensures And(a, b) <= a
  {
    if a > 0 && b > 0 { AndSmall(a / 2, b / 2); }
  }

  lemma {:induction false} OrSmall(a: nat, b: nat, n: nat)
    requires a < Pow2(n) && b < Pow2(n)
    ensures Or(a, b) < Pow2(n)
    decreases n
  {
    if n > 0 && a > 0 && b > 0 { OrSmall(a / 2, b / 2, n - 1); }
  }

  lemma {:induction false} BitComplement(x: nat, n: nat, b: nat)
    requires x < Pow2(n) && b < n
    ensures Bit(Pow2(n) - 1 - x, b) == !Bit(x, b)
    decreases n
  {
    assert (Pow2(n) - 1 - x) / 2 == Pow2(n - 1) - 1 - x / 2;
    if b > 0 { BitComplement(x / 2, n - 1, b - 1); }
  }

  lemma BitNot(x: Word, b: nat)
    requires b < 64
    ensures Bit(Not(x), b) == !Bit(x, b)
  {
    BitComplement(x, 64, b);
  }

  lemma BitOnes(b: nat)
    requires b < 64
    ensures Bit(Ones(), b)
  {
    BitNot(0, b);
    BitZero(b);
  }

  lemma {:induction false} ZeroIfNoBit(x: nat, n: nat)
    requires x < Pow2(n) && forall b: nat :: b < n ==> !Bit(x, b)
    ensures x == 0
    decreases n
  {
    if n > 0 {
      assert !Bit(x, 0);
      forall b: nat | b < n - 1 ensures !Bit(x / 2, b) {
        assert !Bit(x, b + 1);
      }
      ZeroIfNoBit(x / 2, n - 1);
    }
  }

  lemma OnesIfAllBits(x: Word)
    requires forall b: nat :: b < 64 ==> Bit(x, b)
    ensures x == Ones()
  {
    forall b: nat | b < 64 ensures !Bit(Not(x), b) { BitNot(x, b); }
    ZeroIfNoBit(Not(x), 64);
  }

  /** The masks of the source: from bit s up, and up to bit e. */
  function StartMask(s: nat): Word { Left(Ones(), s) }

  function EndMask(e: nat): Word
    requires e < 64
  {
    Pow2Mono(e + 1, 64);
    if e == 63 then Ones() else Pow2(e + 1) - 1
  }

  lemma BitStartMask(s: nat, b: nat)
    requires s < 64 && b < 64
    ensures Bit(StartMask(s), b) == (b >= s)
  {
    BitLow(Shl(Ones(), s), 64, b);
    BitShl(Ones(), s, b);
    if b >= s { BitOnes(b - s); }
  }

  lemma {:induction false} BitBelow(n: nat, b: nat)
    ensures Bit(Pow2(n) - 1, b) == (b < n)
    decreases n
  {
    if n == 0 { BitZero(b); }
    else {
      assert (Pow2(n) - 1) / 2 == Pow2(n - 1) - 1;
      if b > 0 { BitBelow(n - 1, b - 1); }
    }
  }

  lemma BitEndMask(e: nat, b: nat)
    requires e < 64 && b < 64
    ensures Bit(EndMask(e), b) == (b <= e)
  {
    BitBelow(e + 1, b);
    BitOnes(b);
  }

  // ----- std::countr_zero and its relatives -----

  /** How many bits from i up equal v. */
  function CountUp(x: Word, v: bool, i: nat): (r: nat)
    requires i <= 64
    ensures r <= 64 - i && (i + r < 64 ==> Bit(x, i + r) != v)
    ensures forall b :: i <= b < i + r ==> Bit(x, b) == v
    decreases 64 - i
  {
    if i == 64 || Bit(x, i) != v then 0 else 1 + CountUp(x, v, i + 1)
  }

  /** How many bits below i, downwards, equal v. */
  function CountDown(x: Word, v: bool, i: nat): (r: nat)
    requires i <= 64
    ensures r <= i && (r < i ==> Bit(x, i - r - 1) != v)
    ensures forall b :: i - r <= b < i ==> Bit(x, b) == v
  {
    if i == 0 || Bit(x, i - 1) != v then 0 else 1 + CountDown(x, v, i - 1)
  }

  // ----- the set -----

  /** Index i is on. */
  predicate In(d: seq<Word>, i: nat)
    requires i < 64 * |d|
  {
    Bit(d[i / 64], i % 64)
  }

  lemma InAt(d: seq<Word>, w: nat, b: nat)
    requires w < |d| && b < 64
    ensures In(d, 64 * w + b) == Bit(d[w], b)
  {
  }

  ghost predicate AllIn(d: seq<Word>, lo: nat, hi: nat) {
    hi <= 64 * |d| && forall i :: lo <= i < hi ==> In(d, i)
  }

  ghost predicate NoneIn(d: seq<Word>, lo: nat, hi: nat) {
    hi <= 64 * |d| && forall i :: lo <= i < hi ==> !In(d, i)
  }

  lemma PlaceInWord(i: nat, w: nat)
    requires 64 * w <= i < 64 * w + 64
    ensures i / 64 == w && i % 64 == i - 64 * w
  {
  }

  lemma FoundRun(d: seq<Word>, start: nat, first: nat, last: nat)
    requires start <= first && NoneIn(d, start, first) && RunEnds(d, first, last)
    ensures FirstRun(d, start, first, last)
  {
  }

  lemma JoinAll(d: seq<Word>, lo: nat, mid: nat, hi: nat)
    requires AllIn(d, lo, mid) && AllIn(d, mid, hi) && lo <= mid <= hi
    ensures AllIn(d, lo, hi)
  {
  }

  lemma WordToIn(d: seq<Word>, w: nat, lo: nat, hi: nat, v: bool)
    requires w < |d| && 64 * w <= lo && hi <= 64 * w + 64
    requires forall b: nat :: lo <= 64 * w + b < hi ==> Bit(d[w], b) == v
    ensures if v then AllIn(d, lo, hi) else NoneIn(d, lo, hi)
  {
    forall i | lo <= i < hi ensures i < 64 * |d| && In(d, i) == v {
      InAt(d, w, i - 64 * w);
      assert lo <= 64 * w + (i - 64 * w) < hi;
    }
  }

  // ----- range operations -----

  /** Turn a range on, turn it off, or keep it alone. */
  datatype RangeOp = Fill | Wipe | Slice

  predicate Wanted(op: RangeOp, was: bool, inside: bool) {
    match op
    case Fill => was || inside
    case Wipe => was && !inside
    case Slice => was && inside
  }

  ghost predicate WordDone(op: RangeOp, x: Word, was: Word, w: nat, start: nat, end: nat) {
    forall b: nat :: b < 64 ==> Bit(x, b) == Wanted(op, Bit(was, b), start <= 64 * w + b < end)
  }

  /** The masks of the source: setting and slicing use the bits in the range, clearing the bits out of
      it. */
  function HeadMask(op: RangeOp, s: nat): Word
    requires s < 64
  {
    Pow2Mono(s, 64);
    if op == Wipe then Pow2(s) - 1 else Left(Ones(), s)
  }

  function TailMask(op: RangeOp, e: nat): Word
    requires e < 64
  {
    Pow2Mono(e + 1, 64);
    if op == Wipe then (if e == 63 then 0 else Not(Pow2(e + 1) - 1)) else if e == 63 then Ones() else Pow2(e + 1) - 1
  }

  function BothMasks(op: RangeOp, s: nat, e: nat): Word
    requires s < 64 && e < 64
  {
    if op == Wipe then Either(HeadMask(op, s), TailMask(op, e)) else Both(HeadMask(op, s), TailMask(op, e))
  }

  function Apply(op: RangeOp, was: Word, mask: Word): Word {
    if op == Fill then Either(was, mask) else Both(was, mask)
  }

  function Whole(op: RangeOp, was: Word): Word {
    match op
    case Fill => Ones()
    case Wipe => 0
    case Slice => was
  }

  lemma HeadBit(op: RangeOp, s: nat, b: nat)
    requires s < 64 && b < 64
    ensures Bit(HeadMask(op, s), b) == ((op == Wipe) != (b >= s))
  {
    BitBelow(s, b);
    BitStartMask(s, b);
  }

  lemma TailBit(op: RangeOp, e: nat, b: nat)
    requires e < 64 && b < 64
    ensures Bit(TailMask(op, e), b) == ((op == Wipe) != (b <= e))
  {
    Pow2Mono(e + 1, 64);
    BitEndMask(e, b);
    BitZero(b);
    if e < 63 { BitNot(Pow2(e + 1) - 1, b); }
  }

  lemma ApplyBit(op: RangeOp, was: Word, mask: Word, b: nat, inside: bool)
    requires b < 64 && Bit(mask, b) == ((op == Wipe) != inside)
    ensures Bit(Apply(op, was, mask), b) == Wanted(op, Bit(was, b), inside)
  {
    BitOr(was, mask, b);
    BitAnd(was, mask, b);
  }

  lemma FirstWord(op: RangeOp, was: Word, w: nat, start: nat, end: nat)
    requires w == start / 64 && 64 * w + 64 <= end
    ensures WordDone(op, Apply(op, was, HeadMask(op, start % 64)), was, w, start, end)
  {
    var mask := HeadMask(op, start % 64);
    forall b: nat | b < 64 ensures Bit(Apply(op, was, mask), b) == Wanted(op, Bit(was, b), start <= 64 * w + b < end) {
      HeadBit(op, start % 64, b);
      ApplyBit(op, was, mask, b, start <= 64 * w + b < end);
    }
  }

  lemma LastWord(op: RangeOp, was: Word, w: nat, start: nat, end: nat)
    requires start <= 64 * w && start < end && w == (end - 1) / 64
    ensures WordDone(op, Apply(op, was, TailMask(op, (end - 1) % 64)), was, w, start, end)
  {
    var mask := TailMask(op, (end - 1) % 64);
    forall b: nat | b < 64 ensures Bit(Apply(op, was, mask), b) == Wanted(op, Bit(was, b), start <= 64 * w + b < end) {
      TailBit(op, (end - 1) % 64, b);
      ApplyBit(op, was, mask, b, start <= 64 * w + b < end);
    }
  }

  lemma OnlyWord(op: RangeOp, was: Word, w: nat, start: nat, end: nat)
    requires start < end && w == start / 64 == (end - 1) / 64
    ensures WordDone(op, Apply(op, was, BothMasks(op, start % 64, (end - 1) % 64)), was, w, start, end)
  {
    var s, e := start % 64, (end - 1) % 64;
    var mask := BothMasks(op, s, e);
    forall b: nat | b < 64 ensures Bit(Apply(op, was, mask), b) == Wanted(op, Bit(was, b), start <= 64 * w + b < end) {
      HeadBit(op, s, b);
      TailBit(op, e, b);
      BitAnd(HeadMask(op, s), TailMask(op, e), b);
      BitOr(HeadMask(op, s), TailMask(op, e), b);
      ApplyBit(op, was, mask, b, start <= 64 * w + b < end);
    }
  }

  lemma MiddleWord(op: RangeOp, was: Word, w: nat, start: nat, end: nat)
    requires start <= 64 * w && 64 * w + 64 <= end
    ensures WordDone(op, Whole(op, was), was, w, start, end)
  {
    forall b: nat | b < 64 ensures Bit(Whole(op, was), b) == Wanted(op, Bit(was, b), start <= 64 * w + b < end) {
      BitOnes(b);
      BitZero(b);
    }
  }

  lemma OtherWord(op: RangeOp, x: Word, was: Word, w: nat, start: nat, end: nat)
    requires 64 * w + 64 <= start || end <= 64 * w
    requires x == if op == Slice then 0 else was
    ensures WordDone(op, x, was, w, start, end)
  {
    forall b: nat | b < 64 ensures Bit(x, b) == Wanted(op, Bit(was, b), start <= 64 * w + b < end) {
      BitZero(b);
    }
  }

  /** The operation touched exactly the range [start, end). */
  ghost predicate RangeDone(op: RangeOp, d: seq<Word>, was: seq<Word>, start: nat, end: nat) {
    |d| == |was| && forall i :: 0 <= i < 64 * |d| ==> In(d, i) == Wanted(op, In(was, i), start <= i < end)
  }

  /** All words but those from lo to hi are as they should be. */
  ghost predicate DoneBut(op: RangeOp, d: seq<Word>, was: seq<Word>, start: nat, end: nat, lo: nat, hi: nat) {
    |d| == |was| && forall w :: 0 <= w < |d| && !(lo <= w <= hi) ==> WordDone(op, d[w], was[w], w, start, end)
  }

  lemma WordsToRange(op: RangeOp, d: seq<Word>, was: seq<Word>, start: nat, end: nat)
    requires start < end && DoneBut(op, d, was, start, end, (end - 1) / 64 + 1, (end - 1) / 64)
    ensures RangeDone(op, d, was, start, end)
  {
    forall i | 0 <= i < 64 * |d| ensures In(d, i) == Wanted(op, In(was, i), start <= i < end) {
      var w, b := i / 64, i % 64;
      assert i == 64 * w + b && WordDone(op, d[w], was[w], w, start, end);
    }
  }

  /** The set of indices that are on. */
  ghost function Contents(d: seq<Word>): set<nat> {
    set i | 0 <= i < 64 * |d| && In(d, i)
  }

  ghost function Span(start: nat, end: nat): (r: set<nat>)
    ensures forall i: nat :: i in r <==> start <= i < end
    decreases end - start
  {
    if start >= end then {} else {start} + Span(start + 1, end)
  }

  /** In terms of sets the operations are union, difference and intersection. */
  lemma RangeOnSets(op: RangeOp, d: seq<Word>, was: seq<Word>, start: nat, end: nat)
    requires RangeDone(op, d, was, start, end) && end <= 64 * |d|
    ensures op == Fill ==> Contents(d) == Contents(was) + Span(start, end)
    ensures op == Wipe ==> Contents(d) == Contents(was) - Span(start, end)
    ensures op == Slice ==> Contents(d) == Contents(was) * Span(start, end)
  {
  }

  // ----- runs of ones -----

  /** The run that begins at first ends at last: all on, and off behind, or the end of the array. */
  ghost predicate RunEnds(d: seq<Word>, first: nat, last: nat) {
    first < last <= 64 * |d| && AllIn(d, first, last) && (last < 64 * |d| ==> !In(d, last))
  }

  ghost predicate FirstRun(d: seq<Word>, start: nat, first: nat, last: nat) {
    if first == 64 * |d| then last == first && NoneIn(d, start, 64 * |d|)
    else start <= first && NoneIn(d, start, first) && RunEnds(d, first, last)
  }

  lemma OneBit(x: Word, b: nat)
    requires b < 64
    ensures Left(1, b) < Pow2(64) && (Both(x, Left(1, b)) != 0 <==> Bit(x, b))
  {
    forall c: nat | c < 64 ensures Bit(Both(x, Left(1, b)), c) == (c == b && Bit(x, b)) {
      BitAnd(x, Left(1, b), c);
      BitLow(Shl(1, b), 64, c);
      BitShl(1, b, c);
      BitOfOne(if c >= b then c - b else 0);
    }
    if !Bit(x, b) { ZeroIfNoBit(Both(x, Left(1, b)), 64); }
    BitZero(b);
  }

  lemma BitOfOne(i: nat)
    ensures Bit(1, i) == (i == 0)
  {
    if i > 0 { BitZero(i - 1); }
  }

  /** The bits of word w from start on, and no others. */
  ghost predicate TailWord(d: seq<Word>, w: nat, start: nat, word: Word) {
    w < |d| && forall b: nat :: b < 64 ==> Bit(word, b) == (Bit(d[w], b) && start <= 64 * w + b)
  }

  lemma MaskedFrom(d: seq<Word>, w: nat, start: nat, word: Word)
    requires w < |d| && w == start / 64 && word == Both(d[w], Left(Ones(), start % 64))
    ensures TailWord(d, w, start, word) && NoneIn(d, start, 64 * w)
  {
    forall b: nat | b < 64 ensures Bit(word, b) == (Bit(d[w], b) && start <= 64 * w + b) {
      BitAnd(d[w], StartMask(start % 64), b);
      BitStartMask(start % 64, b);
    }
  }

  lemma NoneInWord(d: seq<Word>, w: nat, start: nat, word: Word)
    requires TailWord(d, w, start, word) && word == 0 && NoneIn(d, start, 64 * w)
    ensures NoneIn(d, start, 64 * w + 64)
  {
    forall i | start <= i < 64 * w + 64 ensures !In(d, i) {
      if i >= 64 * w {
        InAt(d, w, i - 64 * w);
        BitZero(i - 64 * w);
        assert Bit(word, i - 64 * w) == (Bit(d[w], i - 64 * w) && start <= 64 * w + (i - 64 * w));
      }
    }
  }

  lemma FirstBit(d: seq<Word>, w: nat, start: nat, word: Word, c: nat)
    requires TailWord(d, w, start, word) && word != 0 && NoneIn(d, start, 64 * w) && c == CountUp(word, false, 0)
    ensures c < 64 && start <= 64 * w + c && NoneIn(d, start, 64 * w + c) && In(d, 64 * w + c)
  {
    if c == 64 { ZeroIfNoBit(word, 64); }
    InAt(d, w, c);
    NoneBelowBit(d, w, start, word, c);
  }

  lemma NoneBelowBit(d: seq<Word>, w: nat, start: nat, word: Word, c: nat)
    requires TailWord(d, w, start, word) && c < 64 && NoneIn(d, start, 64 * w) && forall b: nat :: b < c ==> !Bit(word, b)
    ensures NoneIn(d, start, 64 * w + c)
  {
    var lo := if start < 64 * w then 64 * w else start;
    forall b: nat | lo <= 64 * w + b < 64 * w + c ensures Bit(d[w], b) == false {
      assert !Bit(word, b);
    }
    WordToIn(d, w, lo, 64 * w + c, false);
  }

  /** Counting ones in a shifted word is counting from the shift on. */
  lemma {:induction false} CountUpShift(x: Word, f: nat, i: nat)
    requires i + f <= 64
    ensures CountUp(Right(x, f), true, i) == CountUp(x, true, i + f)
    decreases 64 - i
  {
    BitShr(x, f, i);
    if i + f == 64 { BitsPast(x, 64, 64); }
    else { CountUpShift(x, f, i + 1); }
  }

  lemma OnesCount(x: Word)
    requires x == Ones()
    ensures CountUp(x, true, 0) == 64 && CountDown(x, true, 64) == 64
  {
    forall b: nat | b < 64 ensures Bit(x, b) { BitOnes(b); }
  }

  ghost predicate RunStartsAt(d: seq<Word>, first: nat, last: nat) {
    first < last <= 64 * |d| && AllIn(d, first, last) && (first > 0 ==> !In(d, first - 1))
  }

  ghost predicate LastRun(d: seq<Word>, end: nat, first: nat, last: nat) {
    if last == 0 then first == 0 && NoneIn(d, 0, end)
    else last <= end && NoneIn(d, last, end) && RunStartsAt(d, first, last)
  }

  /** The bits of word w below end, and no others. */
  ghost predicate HeadWord(d: seq<Word>, w: nat, end: nat, word: Word) {
    w < |d| && forall b: nat :: b < 64 ==> Bit(word, b) == (Bit(d[w], b) && 64 * w + b < end)
  }

  lemma MaskedUpTo(d: seq<Word>, w: nat, end: nat, word: Word)
    requires 1 <= end <= 64 * |d| && w == (end - 1) / 64 && word == Both(d[w], EndMask((end - 1) % 64))
    ensures HeadWord(d, w, end, word) && NoneIn(d, 64 * w + 64, end)
  {
    forall b: nat | b < 64 ensures Bit(word, b) == (Bit(d[w], b) && 64 * w + b < end) {
      BitAnd(d[w], EndMask((end - 1) % 64), b);
      BitEndMask((end - 1) % 64, b);
    }
  }

  lemma WholeWord(d: seq<Word>, w: nat, end: nat)
    requires w < |d| && 64 * w + 64 <= end
    ensures HeadWord(d, w, end, d[w])
  {
  }

  lemma NoneInHead(d: seq<Word>, w: nat, end: nat, word: Word)
    requires HeadWord(d, w, end, word) && word == 0 && end <= 64 * |d| && NoneIn(d, 64 * w + 64, end)
    ensures NoneIn(d, 64 * w, end)
  {
    forall b: nat | 64 * w <= 64 * w + b < if end < 64 * w + 64 then end else 64 * w + 64 ensures Bit(d[w], b) == false {
      BitZero(b);
      assert Bit(word, b) == (Bit(d[w], b) && 64 * w + b < end);
    }
    WordToIn(d, w, 64 * w, if end < 64 * w + 64 then end else 64 * w + 64, false);
  }

  lemma HighestBit(d: seq<Word>, w: nat, end: nat, word: Word)
    requires HeadWord(d, w, end, word) && word != 0 && end <= 64 * |d| && NoneIn(d, 64 * w + 64, end)
    ensures CountDown(word, false, 64) < 64
    ensures var last := 64 * w + 64 - CountDown(word, false, 64);
            64 * w < last <= end && NoneIn(d, last, end) && Bit(word, last - 1 - 64 * w)
  {
    var c := CountDown(word, false, 64);
    if c == 64 { ZeroIfNoBit(word, 64); }
    var hi := if end < 64 * w + 64 then end else 64 * w + 64;
    forall b: nat | 64 * w + 64 - c <= 64 * w + b < hi ensures Bit(d[w], b) == false {
      assert Bit(word, b) == false;
    }
    WordToIn(d, w, 64 * w + 64 - c, hi, false);
  }

  lemma {:induction false} CountDownShift(x: Word, e: nat, i: nat)
    requires e <= i <= 64
    ensures CountDown(Left(x, e), true, i) == CountDown(x, true, i - e)
    decreases i
  {
    if i > 0 {
      BitLow(Shl(x, e), 64, i - 1);
      BitShl(x, e, i - 1);
      if i > e { CountDownShift(x, e, i - 1); }
    }
  }

  /** The ones of a word just below a given bit. */
  lemma OnesBelow(d: seq<Word>, w: nat, end: nat, word: Word, h: nat)
    requires HeadWord(d, w, end, word) && 1 <= h <= 64 && 64 * w + h <= end && Bit(word, h - 1)
    ensures var ones := CountDown(word, true, h);
            && 1 <= ones <= h && AllIn(d, 64 * w + h - ones, 64 * w + h)
            && (ones < h ==> !In(d, 64 * w + h - ones - 1))
  {
    var ones := CountDown(word, true, h);
    forall b: nat | 64 * w + h - ones <= 64 * w + b < 64 * w + h ensures Bit(d[w], b) == true {
      assert Bit(word, b) == true;
    }
    WordToIn(d, w, 64 * w + h - ones, 64 * w + h, true);
    if ones < h {
      InAt(d, w, h - ones - 1);
    }
  }

  lemma RunStarts(d: seq<Word>, w: nat, last: nat)
    requires w < |d| && d[w] != Ones() && 64 * w + 64 < last && AllIn(d, 64 * w + 64, last)
    ensures RunStartsAt(d, 64 * w + 64 - CountDown(d[w], true, 64), last)
  {
    var ones := CountDown(d[w], true, 64);
    if ones == 64 { OnesIfAllBits(d[w]); }
    forall b: nat | 64 * w + 64 - ones <= 64 * w + b < 64 * w + 64 ensures Bit(d[w], b) == true {}
    WordToIn(d, w, 64 * w + 64 - ones, 64 * w + 64, true);
    InAt(d, w, 63 - ones);
  }

  lemma RunCameFrom(d: seq<Word>, w: nat, last: nat)
    requires w < |d| && d[w] == Ones() && 64 * w + 64 <= last && AllIn(d, 64 * w + 64, last)
    ensures AllIn(d, 64 * w, last)
  {
    OnesCount(d[w]);
    OnesIn(d, w, 0, 64);
  }

  class BitArray {
    const WORD_COUNT: nat
    var m_data: array<Word>

    ghost predicate Valid()
      reads this, m_data
    {
      1 <= WORD_COUNT == m_data.Length
    }

    /** All off. */
    constructor (words: nat)
      requires words >= 1
      ensures Valid() && WORD_COUNT == words && fresh(m_data) && NoneIn(m_data[..], 0, 64 * words)
    {
      WORD_COUNT := words;
      m_data := new Word[words](_ => 0);
      new;
      forall i | 0 <= i < 64 * words ensures !In(m_data[..], i) { BitZero(i % 64); }
    }

    /** A copy of one range of another array; empty if the range is. */
    constructor Sliced(other: BitArray, start: nat, end: nat)
      requires other.Valid()
      ensures Valid() && WORD_COUNT == other.WORD_COUNT && fresh(m_data)
      ensures RangeDone(Slice, m_data[..], other.m_data[..], start, if end > 64 * WORD_COUNT then start else end)
    {
      WORD_COUNT := other.WORD_COUNT;
      m_data := new Word[other.WORD_COUNT](_ => 0);
      new;
      if start >= end || end > 64 * WORD_COUNT {
        NothingDone(Slice, m_data[..], other.m_data[..], start, if end > 64 * WORD_COUNT then start else end);
        return;
      }
      ChangeRange(Slice, other.m_data, start, end);
    }

    method SetRange(start: nat, end: nat)
      requires Valid()
      modifies m_data
      ensures Valid() && RangeDone(Fill, m_data[..], old(m_data[..]), start, if end > 64 * WORD_COUNT then start else end)
    {
      if start >= end || end > 64 * WORD_COUNT { return; }
      ChangeRange(Fill, m_data, start, end);
    }

    method UnsetRange(start: nat, end: nat)
      requires Valid()
      modifies m_data
      ensures Valid() && RangeDone(Wipe, m_data[..], old(m_data[..]), start, if end > 64 * WORD_COUNT then start else end)
    {
      if start >= end || end > 64 * WORD_COUNT { return; }
      ChangeRange(Wipe, m_data, start, end);
    }

    /** The words of a non-empty range: first, middle and last, or one. */
    method ChangeRange(op: RangeOp, from: array<Word>, start: nat, end: nat)
      requires Valid() && start < end <= 64 * WORD_COUNT && from.Length == WORD_COUNT
      requires if op == Slice then from != m_data && forall w :: 0 <= w < WORD_COUNT ==> m_data[w] == 0 else from == m_data
      modifies m_data
      ensures RangeDone(op, m_data[..], old(from[..]), start, end)
    {
      ghost var was := from[..];
      var first_word, last_word := start / 64, (end - 1) / 64;
      forall w | 0 <= w < WORD_COUNT && (w < first_word || w > last_word) ensures WordDone(op, m_data[w], was[w], w, start, end) {
        OtherWord(op, m_data[w], was[w], w, start, end);
      }
      assert DoneBut(op, m_data[..], was, start, end, first_word, last_word);
      if first_word == last_word {
        var start_bit, end_bit := start % 64, (end - 1) % 64;
        OnlyWord(op, was[first_word], first_word, start, end);
        Store(op, was, start, end, first_word, last_word, Apply(op, from[first_word], BothMasks(op, start_bit, end_bit)));
      } else {
        ChangeWords(op, from, start, end, was);
      }
      WordsToRange(op, m_data[..], was, start, end);
    }

    /** Stores the next word that is due. */
    method Store(op: RangeOp, ghost was: seq<Word>, ghost start: nat, ghost end: nat, w: nat, ghost last: nat, x: Word)
      requires DoneBut(op, m_data[..], was, start, end, w, last) && w < m_data.Length && WordDone(op, x, was[w], w, start, end)
      modifies m_data
      ensures DoneBut(op, m_data[..], was, start, end, w + 1, last)
      ensures forall k :: 0 <= k < m_data.Length && k != w ==> m_data[k] == old(m_data[k])
    {
      m_data[w] := x;
    }

    /** A range over several words: the first, those in between, the last. */
    method ChangeWords(op: RangeOp, from: array<Word>, start: nat, end: nat, ghost was: seq<Word>)
      requires Valid() && start < end <= 64 * WORD_COUNT && start / 64 < (end - 1) / 64 && from.Length == WORD_COUNT && was == from[..]
      requires DoneBut(op, m_data[..], was, start, end, start / 64, (end - 1) / 64)
      modifies m_data
      ensures DoneBut(op, m_data[..], was, start, end, (end - 1) / 64 + 1, (end - 1) / 64)
    {
      var first_word, last_word := start / 64, (end - 1) / 64;
      var start_bit, end_bit := start % 64, (end - 1) % 64;
      FirstWord(op, was[first_word], first_word, start, end);
      Store(op, was, start, end, first_word, last_word, Apply(op, from[first_word], HeadMask(op, start_bit)));
      for word := first_word + 1 to last_word
        invariant DoneBut(op, m_data[..], was, start, end, word, last_word)
        invariant forall w :: word <= w <= last_word ==> from[w] == was[w]
      {
        MiddleWord(op, was[word], word, start, end);
        Store(op, was, start, end, word, last_word, Whole(op, from[word]));
      }
      LastWord(op, was[last_word], last_word, start, end);
      Store(op, was, start, end, last_word, last_word, Apply(op, from[last_word], TailMask(op, end_bit)));
    }

    method Get(index: nat) returns (r: bool)
      requires Valid() && index < 64 * WORD_COUNT
      ensures r == In(m_data[..], index)
    {
      var mask := Left(1, index % 64);
      OneBit(m_data[index / 64], index % 64);
      r := Both(m_data[index / 64], mask) != 0;
    }

    /** The first run of ones at or after start, clipped at start; (N, N) if there is none. */
    method FirstRangeFrom(start: nat) returns (first: nat, last: nat)
      requires Valid()
      ensures FirstRun(m_data[..], start, first, last)
    {
      var n := 64 * WORD_COUNT;
      ghost var d := m_data[..];
      if start >= n { return n, n; }
      var word_index := start / 64;
      var word := Both(m_data[word_index], Left(Ones(), start % 64));
      MaskedFrom(d, word_index, start, word);
      while word == 0
        invariant word_index < WORD_COUNT && NoneIn(d, start, 64 * word_index)
        invariant TailWord(d, word_index, start, word)
        decreases WORD_COUNT - word_index
      {
        NoneInWord(d, word_index, start, word);
        word_index := word_index + 1;
        if word_index == WORD_COUNT {
          return n, n;
        }
        word := m_data[word_index];
      }
      first, last := RunInWord(word_index, word, start);
    }

    /** The run that starts at the lowest one of this word, or at start. */
    method RunInWord(index: nat, word: Word, ghost start: nat) returns (first: nat, last: nat)
      requires Valid() && index < WORD_COUNT && word != 0 && NoneIn(m_data[..], start, 64 * index)
      requires TailWord(m_data[..], index, start, word)
      ensures FirstRun(m_data[..], start, first, last)
    {
      var c := CountUp(word, false, 0);
      FirstBit(m_data[..], index, start, word, c);
      first, last := RunAt(index, c, start);
    }

    method RunAt(index: nat, bit: nat, ghost start: nat) returns (first: nat, last: nat)
      requires Valid() && index < WORD_COUNT && bit < 64 && start <= 64 * index + bit
      requires NoneIn(m_data[..], start, 64 * index + bit) && In(m_data[..], 64 * index + bit)
      ensures FirstRun(m_data[..], start, first, last)
    {
      first := index * 64 + bit;
      last := EndOfRun(first, index, bit);
      FoundRun(m_data[..], start, first, last);
    }

    /** The end of the run of ones that begins at first, in the given word. */
    method EndOfRun(first: nat, index: nat, ghost bit: nat) returns (last: nat)
      requires Valid() && index < WORD_COUNT && bit < 64 && first == 64 * index + bit && In(m_data[..], first)
      ensures RunEnds(m_data[..], first, last)
    {
      var first_bit := first % 64;
      ghost var d := m_data[..];
      PlaceInWord(first, index);
      var first_ones := CountUp(Right(m_data[index], first_bit), true, 0);
      OnesFrom(d, index, first_bit);
      if first_bit + first_ones < 64 {
        return first + first_ones;
      }
      last := ContinueRun(first, index + 1);
    }

    /** The run goes on through whole words of ones. */
    method ContinueRun(first: nat, index: nat) returns (last: nat)
      requires Valid() && index <= WORD_COUNT && first < 64 * index && AllIn(m_data[..], first, 64 * index)
      ensures RunEnds(m_data[..], first, last)
    {
      ghost var d := m_data[..];
      var word_index := index;
      while word_index < WORD_COUNT
        invariant word_index <= WORD_COUNT && first < 64 * word_index && AllIn(d, first, 64 * word_index)
      {
        var word := m_data[word_index];
        if word != Ones() {
          RunStops(d, first, word_index);
          return word_index * 64 + CountUp(word, true, 0);
        }
        RunGoesOn(d, first, word_index);
        word_index := word_index + 1;
      }
      last := 64 * WORD_COUNT;
    }

    /** The last run of ones that ends at or before end, clipped at end; (0, 0) if there is none. */
    method LastRangeFrom(end: nat) returns (first: nat, last: nat)
      requires Valid()
      ensures LastRun(m_data[..], if end > 64 * WORD_COUNT then 64 * WORD_COUNT else end, first, last)
    {
      if end == 0 { return 0, 0; }
      ghost var d := m_data[..];
      var e := if end > 64 * WORD_COUNT then 64 * WORD_COUNT else end;
      var word_index := (e - 1) / 64;
      var end_bit := (e - 1) % 64;
      var word := Both(m_data[word_index], EndMask(end_bit));
      MaskedUpTo(d, word_index, e, word);
      while word == 0
        invariant word_index < WORD_COUNT && NoneIn(d, 64 * word_index + 64, e)
        invariant HeadWord(d, word_index, e, word)
        decreases word_index
      {
        NoneInHead(d, word_index, e, word);
        if word_index == 0 { return 0, 0; }
        word_index := word_index - 1;
        word := m_data[word_index];
        WholeWord(d, word_index, e);
      }
      first, last := StartOfRun(word_index, word, e);
    }

    /** The run whose last one is the highest one of a word. */
    method StartOfRun(index: nat, word: Word, ghost e: nat) returns (first: nat, last: nat)
      requires Valid() && index < WORD_COUNT && word != 0 && e <= 64 * WORD_COUNT
      requires NoneIn(m_data[..], 64 * index + 64, e) && HeadWord(m_data[..], index, e, word)
      ensures LastRun(m_data[..], e, first, last)
    {
      ghost var d := m_data[..];
      var empty_bits := CountDown(word, false, 64);
      HighestBit(d, index, e, word);
      var ones := CountDown(Left(word, empty_bits), true, 64);
      CountDownShift(word, empty_bits, 64);
      OnesBelow(d, index, e, word, 64 - empty_bits);
      last := (index + 1) * 64 - empty_bits;
      if empty_bits + ones < 64 {
        return last - ones, last;
      }
      first := RunBack(index, last);
    }

    /** The run comes from whole words of ones below. */
    method RunBack(index: nat, last: nat) returns (first: nat)
      requires Valid() && index < WORD_COUNT && 64 * index < last && AllIn(m_data[..], 64 * index, last)
      ensures RunStartsAt(m_data[..], first, last)
    {
      ghost var d := m_data[..];
      var word_index: nat := index;
      while word_index != 0
        invariant word_index <= index && 64 * word_index < last && AllIn(d, 64 * word_index, last)
      {
        word_index := word_index - 1;
        var w := m_data[word_index];
        if w != Ones() {
          RunStarts(d, word_index, last);
          return (word_index + 1) * 64 - CountDown(w, true, 64);
        }
        RunCameFrom(d, word_index, last);
      }
      first := 0;
    }
  }

  /** The ones of a word from a given bit on. */
  lemma OnesFrom(d: seq<Word>, w: nat, f: nat)
    requires w < |d| && f < 64 && In(d, 64 * w + f)
    ensures var ones := CountUp(Right(d[w], f), true, 0);
            && 1 <= ones <= 64 - f && AllIn(d, 64 * w + f, 64 * w + f + ones)
            && (f + ones < 64 ==> !In(d, 64 * w + f + ones))
  {
    InAt(d, w, f);
    CountUpShift(d[w], f, 0);
    OnesOfWord(d, w, f, CountUp(d[w], true, f));
  }

  lemma OnesOfWord(d: seq<Word>, w: nat, f: nat, ones: nat)
    requires w < |d| && f < 64 && Bit(d[w], f) && ones == CountUp(d[w], true, f)
    ensures 1 <= ones <= 64 - f && AllIn(d, 64 * w + f, 64 * w + f + ones) && (f + ones < 64 ==> !In(d, 64 * w + f + ones))
  {
    OnesIn(d, w, f, ones);
  }

  lemma OnesIn(d: seq<Word>, w: nat, f: nat, ones: nat)
    requires w < |d| && f + ones <= 64 && (f + ones < 64 ==> !Bit(d[w], f + ones)) && forall b :: f <= b < f + ones ==> Bit(d[w], b)
    ensures AllIn(d, 64 * w + f, 64 * w + f + ones) && (f + ones < 64 ==> !In(d, 64 * w + f + ones))
  {
    WordToIn(d, w, 64 * w + f, 64 * w + f + ones, true);
    if f + ones < 64 { InAt(d, w, f + ones); }
  }

  lemma RunGoesOn(d: seq<Word>, first: nat, w: nat)
    requires w < |d| && d[w] == Ones() && first < 64 * w && AllIn(d, first, 64 * w)
    ensures AllIn(d, first, 64 * w + 64)
  {
    OnesCount(d[w]);
    OnesIn(d, w, 0, 64);
  }

  lemma RunStops(d: seq<Word>, first: nat, w: nat)
    requires w < |d| && d[w] != Ones() && first < 64 * w && AllIn(d, first, 64 * w)
    ensures RunEnds(d, first, 64 * w + CountUp(d[w], true, 0))
  {
    var ones := CountUp(d[w], true, 0);
    SomeZero(d[w], ones);
    OnesIn(d, w, 0, ones);
    JoinAll(d, first, 64 * w, 64 * w + ones);
  }

  lemma SomeZero(x: Word, ones: nat)
    requires x != Ones() && ones == CountUp(x, true, 0)
    ensures ones < 64
  {
    if ones == 64 { OnesIfAllBits(x); }
  }

  lemma NothingDone(op: RangeOp, d: seq<Word>, was: seq<Word>, start: nat, end: nat)
    requires |d| == |was| && end <= start && forall w :: 0 <= w < |d| ==> d[w] == if op == Slice then 0 else was[w]
    ensures RangeDone(op, d, was, start, end)
  {
    forall i | 0 <= i < 64 * |d| ensures In(d, i) == Wanted(op, In(was, i), start <= i < end) { BitZero(i % 64); }
  }

  // ----- iteration -----

  class Iterator {
    const m_bits: BitArray
    var m_range: (nat, nat)

    constructor (bits: BitArray, start: nat)
      requires bits.Valid()
      ensures m_bits == bits && FirstRun(bits.m_data[..], start, m_range.0, m_range.1)
    {
      m_bits := bits;
      var first, last := bits.FirstRangeFrom(start);
      m_range := (first, last);
    }

    method Advance()
      requires m_bits.Valid()
      modifies this
      ensures FirstRun(m_bits.m_data[..], old(m_range.1), m_range.0, m_range.1)
    {
      var first, last := m_bits.FirstRangeFrom(m_range.1);
      m_range := (first, last);
    }
  }

  /** Maximal runs, in order, no two touching. */
  ghost predicate AreRuns(d: seq<Word>, runs: seq<(nat, nat)>) {
    && (forall k :: 0 <= k < |runs| ==> RunEnds(d, runs[k].0, runs[k].1) && RunStartsAt(d, runs[k].0, runs[k].1))
    && (forall j, k :: 0 <= j < k < |runs| ==> runs[j].1 < runs[k].0)
  }

  ghost predicate InRun(runs: seq<(nat, nat)>, i: nat) {
    exists k :: 0 <= k < |runs| && runs[k].0 <= i < runs[k].1
  }

  /** The runs cover exactly the indices below a bound that are on. */
  ghost predicate Covered(d: seq<Word>, runs: seq<(nat, nat)>, bound: nat) {
    bound <= 64 * |d| && forall i :: 0 <= i < bound ==> (In(d, i) <==> InRun(runs, i))
  }

  lemma InRunAppend(runs: seq<(nat, nat)>, r: (nat, nat), i: nat)
    ensures InRun(runs + [r], i) <==> InRun(runs, i) || r.0 <= i < r.1
  {
    var more := runs + [r];
    assert more[|runs|] == r;
    if InRun(runs, i) {
      var k :| 0 <= k < |runs| && runs[k].0 <= i < runs[k].1;
      assert more[k] == runs[k];
    }
  }

  /** What has been visited so far. */
  ghost predicate Visited(d: seq<Word>, runs: seq<(nat, nat)>, bound: nat) {
    AreRuns(d, runs) && Covered(d, runs, bound) && if runs == [] then bound == 0 else runs[|runs| - 1].1 == bound
  }

  lemma RunsBelow(d: seq<Word>, runs: seq<(nat, nat)>, bound: nat, i: nat)
    requires Visited(d, runs, bound) && bound <= i
    ensures !InRun(runs, i)
  {
    forall k | 0 <= k < |runs| ensures runs[k].1 <= bound {
      assert RunEnds(d, runs[|runs| - 1].0, runs[|runs| - 1].1);
    }
  }

  lemma NextRun(d: seq<Word>, runs: seq<(nat, nat)>, bound: nat, first: nat, last: nat)
    requires Visited(d, runs, bound) && FirstRun(d, bound, first, last) && first < 64 * |d|
    ensures Visited(d, runs + [(first, last)], last)
  {
    if runs != [] { RunsApart(d, runs, bound, first); }
    forall i | 0 <= i < last ensures In(d, i) <==> InRun(runs + [(first, last)], i) {
      InRunAppend(runs, (first, last), i);
      if bound <= i { RunsBelow(d, runs, bound, i); }
    }
  }

  lemma RunsApart(d: seq<Word>, runs: seq<(nat, nat)>, bound: nat, first: nat)
    requires Visited(d, runs, bound) && runs != [] && bound <= first < 64 * |d| && In(d, first)
    ensures forall k :: 0 <= k < |runs| ==> runs[k].1 < first
  {
    assert RunEnds(d, runs[|runs| - 1].0, runs[|runs| - 1].1);
  }

  lemma NoMoreRuns(d: seq<Word>, runs: seq<(nat, nat)>, bound: nat)
    requires Visited(d, runs, bound) && NoneIn(d, bound, 64 * |d|)
    ensures Covered(d, runs, 64 * |d|)
  {
    forall i | bound <= i < 64 * |d| ensures !InRun(runs, i) {
      RunsBelow(d, runs, bound, i);
    }
  }

  /** Iterating from begin() to end() visits exactly the maximal runs, in order. */
  method Iterate(bits: BitArray) returns (runs: seq<(nat, nat)>)
    requires bits.Valid()
    ensures AreRuns(bits.m_data[..], runs) && Covered(bits.m_data[..], runs, 64 * bits.WORD_COUNT)
  {
    ghost var d := bits.m_data[..];
    var it := new Iterator(bits, 0);
    var end := new Iterator(bits, 64 * bits.WORD_COUNT);
    runs := [];
    ghost var bound := 0;
    while it.m_range != end.m_range
      invariant fresh(it) && it.m_bits == bits && it != end && end.m_range == (64 * |d|, 64 * |d|)
      invariant Visited(d, runs, bound) && FirstRun(d, bound, it.m_range.0, it.m_range.1)
      decreases 64 * |d| - bound
    {
      NextRun(d, runs, bound, it.m_range.0, it.m_range.1);
      bound := it.m_range.1;
      runs := runs + [it.m_range];
      it.Advance();
    }
    NoMoreRuns(d, runs, bound);
  }
}
