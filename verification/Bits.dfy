/** Unsigned machine words as natural numbers, with the C operators `&`, `|`, `<<`, `>>` defined
    bit by bit, and the arithmetic facts that let masks and shifts be replaced by sums and
    remainders. */
module Bits {

  /** Bit i of a, counted from the least significant. */
  predicate Bit(a: nat, i: nat) {
    if i == 0 then a % 2 == 1 else Bit(a / 2, i - 1)
  }

  function And(a: nat, b: nat): nat {
    if a == 0 || b == 0 then 0 else 2 * And(a / 2, b / 2) + if a % 2 == 1 && b % 2 == 1 then 1 else 0
  }

  function Or(a: nat, b: nat): nat
    decreases a + b
  {
    if a == 0 then b else if b == 0 then a
    else 2 * Or(a / 2, b / 2) + if a % 2 == 1 || b % 2 == 1 then 1 else 0
  }

  function Shl(a: nat, k: nat): nat {
    if k == 0 then a else 2 * Shl(a, k - 1)
  }

  function Shr(a: nat, k: nat): nat {
    if k == 0 then a else Shr(a / 2, k - 1)
  }

  function Pow2(k: nat): (p: nat)
    ensures p >= 1
  {
    if k == 0 then 1 else 2 * Pow2(k - 1)
  }

  /** The k least significant bits of a. */
  function Low(a: nat, k: nat): nat {
    if k == 0 then 0 else a % 2 + 2 * Low(a / 2, k - 1)
  }

  // ----- single bits -----

  /** Bit i is the digit of weight 2^i. */
  lemma {:induction false} BitIsDigit(a: nat, i: nat)
    ensures Bit(a, i) == (a / Pow2(i) % 2 == 1)
  {
    if i > 0 {
      BitIsDigit(a / 2, i - 1);
      HalfOfQuotient(a, Pow2(i - 1));
    }
  }

  lemma HalfOfQuotient(a: nat, p: nat)
    requires p > 0
    ensures a / (2 * p) == a / 2 / p
  {
    var q, r := a / 2 / p, a / 2 % p;
    assert a / 2 == q * p + r;
    OnlyQuotient(a, 2 * p, q, 2 * r + a % 2);
  }

  lemma OnlyQuotient(a: nat, d: nat, q: nat, r: nat)
    requires r < d && a == q * d + r
    ensures a / d == q
  {
    var q', r' := a / d, a % d;
    assert a == q' * d + r';
    if q < q' { MulStep(q, q', d); }
    if q' < q { MulStep(q', q, d); }
  }

  lemma MulStep(p: nat, q: nat, d: nat)
    requires p < q
    ensures p * d + d <= q * d
    decreases q - p
  {
    assert (p + 1) * d == p * d + d;
    if p + 1 < q { MulStep(p + 1, q, d); }
  }

  lemma {:induction false} BitZero(i: nat)
    ensures !Bit(0, i)
  {
    if i > 0 { BitZero(i - 1); }
  }

  lemma {:induction false} BitAnd(a: nat, b: nat, i: nat)
    ensures Bit(And(a, b), i) == (Bit(a, i) && Bit(b, i))
  {
    BitZero(i);
    if i > 0 && a > 0 && b > 0 { BitAnd(a / 2, b / 2, i - 1); }
  }

  lemma {:induction false} BitOr(a: nat, b: nat, i: nat)
    ensures Bit(Or(a, b), i) == (Bit(a, i) || Bit(b, i))
  {
    BitZero(i);
    if i > 0 && a > 0 && b > 0 { BitOr(a / 2, b / 2, i - 1); }
  }

  lemma {:induction false} BitShl(a: nat, k: nat, i: nat)
    ensures Bit(Shl(a, k), i) == (i >= k && Bit(a, i - k))
  {
    if k > 0 {
      if i > 0 { BitShl(a, k - 1, i - 1); }
      assert Shl(a, k) / 2 == Shl(a, k - 1);
    }
  }

  lemma {:induction false} BitShr(a: nat, k: nat, i: nat)
    ensures Bit(Shr(a, k), i) == Bit(a, i + k)
  {
    if k > 0 { BitShr(a / 2, k - 1, i); }
  }

  lemma {:induction false} BitLow(a: nat, k: nat, i: nat)
    ensures Bit(Low(a, k), i) == (i < k && Bit(a, i))
  {
    if k == 0 { BitZero(i); }
    else if i > 0 {
      BitLow(a / 2, k - 1, i - 1);
      assert Low(a, k) / 2 == Low(a / 2, k - 1);
    }
  }

  /** Words with the same bits are equal. */
  lemma {:induction false} BitExtensional(a: nat, b: nat)
    requires forall i: nat :: Bit(a, i) == Bit(b, i)
    ensures a == b
    decreases a + b
  {
    assert Bit(a, 0) == Bit(b, 0);
    if a + b > 0 {
      forall i: nat ensures Bit(a / 2, i) == Bit(b / 2, i) {
        assert Bit(a, i + 1) == Bit(b, i + 1);
      }
      BitExtensional(a / 2, b / 2);
    }
  }

  // ----- arithmetic of shifts -----

  lemma {:induction false} ShlAdd(a: nat, b: nat, k: nat)
    ensures Shl(a + b, k) == Shl(a, k) + Shl(b, k)
  {
    if k > 0 { ShlAdd(a, b, k - 1); }
  }

  lemma {:induction false} ShlShl(a: nat, j: nat, k: nat)
    ensures Shl(Shl(a, j), k) == Shl(a, j + k)
  {
    if k > 0 { ShlShl(a, j, k - 1); }
  }

  lemma {:induction false} ShlMono(a: nat, b: nat, k: nat)
    ensures a <= b <==> Shl(a, k) <= Shl(b, k)
    ensures a < b <==> Shl(a, k) < Shl(b, k)
  {
    if k > 0 { ShlMono(a, b, k - 1); }
  }

  lemma {:induction false} ShlOne(k: nat)
    ensures Shl(1, k) == Pow2(k)
    ensures Shl(0, k) == 0
  {
    if k > 0 { ShlOne(k - 1); }
  }

  lemma {:induction false} ShlPow2(j: nat, k: nat)
    ensures Shl(Pow2(j), k) == Pow2(j + k)
  {
    if k > 0 { ShlPow2(j, k - 1); }
  }

  lemma {:induction false} Pow2Mono(j: nat, k: nat)
    requires j <= k
    ensures Pow2(j) <= Pow2(k)
  {
    if j < k { Pow2Mono(j, k - 1); }
  }

  lemma {:induction false} LowBound(a: nat, k: nat)
    ensures Low(a, k) < Pow2(k)
  {
    if k > 0 { LowBound(a / 2, k - 1); }
  }

  lemma {:induction false} LowSmall(a: nat, k: nat)
    requires a < Pow2(k)
    ensures Low(a, k) == a && Shr(a, k) == 0
  {
    if k > 0 { LowSmall(a / 2, k - 1); }
  }

  /** A word is its low k bits plus the rest shifted back up. */
  lemma {:induction false} Split(a: nat, k: nat)
    ensures a == Low(a, k) + Shl(Shr(a, k), k)
  {
    if k > 0 { Split(a / 2, k - 1); }
  }

  /** ... and that decomposition is unique. */
  lemma {:induction false} SplitUnique(lo: nat, hi: nat, k: nat)
    requires lo < Pow2(k)
    ensures Low(lo + Shl(hi, k), k) == lo
    ensures Shr(lo + Shl(hi, k), k) == hi
  {
    if k > 0 {
      SplitUnique(lo / 2, hi, k - 1);
      assert (lo + Shl(hi, k)) / 2 == lo / 2 + Shl(hi, k - 1);
      assert (lo + Shl(hi, k)) % 2 == lo % 2;
    }
  }

  lemma {:induction false} LowOfSum(a: nat, b: nat, m: nat, k: nat)
    requires k <= m
    ensures Low(a + Shl(b, m), k) == Low(a, k)
    ensures Shr(a + Shl(b, m), k) == Shr(a, k) + Shl(b, m - k)
  {
    if k > 0 {
      assert (a + Shl(b, m)) / 2 == a / 2 + Shl(b, m - 1);
      LowOfSum(a / 2, b, m - 1, k - 1);
    }
  }

  lemma {:induction false} BitsPast(a: nat, k: nat, i: nat)
    requires a < Pow2(k) && i >= k
    ensures !Bit(a, i)
  {
    if a == 0 { BitZero(i); } else { BitsPast(a / 2, k - 1, i - 1); }
  }

  lemma {:induction false} ShrBound(a: nat, j: nat, k: nat)
    requires a < Pow2(j + k)
    ensures Shr(a, k) < Pow2(j)
  {
    if k > 0 { ShrBound(a / 2, j, k - 1); }
  }

  lemma LowPeriodic(a: nat, k: nat)
    ensures Low(a + Pow2(k), k) == Low(a, k)
  {
    ShlOne(k);
    LowOfSum(a, 1, k, k);
  }

  /** Words that agree in their k low bits are at least 2^k apart. */
  lemma LowApart(a: nat, b: nat, k: nat)
    requires Low(a, k) == Low(b, k) && a <= b < a + Pow2(k)
    ensures a == b
  {
    Split(a, k);
    Split(b, k);
    ShlMono(Shr(a, k), Shr(b, k), k);
    if Shr(a, k) < Shr(b, k) {
      ShlMono(Shr(a, k) + 1, Shr(b, k), k);
      ShlAdd(Shr(a, k), 1, k);
      ShlOne(k);
    }
  }

  // ----- masks -----

  /** `a | b << k` adds when a has only k bits. */
  lemma {:induction false} OrDisjoint(a: nat, b: nat, k: nat)
    requires a < Pow2(k)
    ensures Or(a, Shl(b, k)) == a + Shl(b, k)
  {
    if k > 0 && a > 0 && Shl(b, k) > 0 {
      assert Shl(b, k) / 2 == Shl(b, k - 1);
      OrDisjoint(a / 2, b, k - 1);
      OrHalf(a, Shl(b, k));
    }
  }

  lemma OrHalf(a: nat, b: nat)
    ensures Or(a, b) == 2 * Or(a / 2, b / 2) + if a % 2 == 1 || b % 2 == 1 then 1 else 0
  {
  }

  /** `a & ((1 << k) - 1)` keeps the k low bits. */
  lemma {:induction false} AndMask(a: nat, k: nat)
    ensures And(a, Pow2(k) - 1) == Low(a, k)
  {
    if k > 0 {
      assert (Pow2(k) - 1) / 2 == Pow2(k - 1) - 1;
      AndMask(a / 2, k - 1);
      AndHalf(a, Pow2(k) - 1);
    }
  }

  lemma AndHalf(a: nat, b: nat)
    ensures And(a, b) == 2 * And(a / 2, b / 2) + if a % 2 == 1 && b % 2 == 1 then 1 else 0
  {
  }

  /** `a & ~((1 << k) - 1)` in an n-bit word clears the k low bits. */
  lemma {:induction false} AndHighMask(a: nat, k: nat, n: nat)
    requires k <= n && a < Pow2(n)
    ensures Pow2(k) <= Pow2(n) && And(a, Pow2(n) - Pow2(k)) == a - Low(a, k)
  {
    Pow2Mono(k, n);
    if k == 0 {
      AndMask(a, n);
      LowSmall(a, n);
    } else {
      AndHighMask(a / 2, k - 1, n - 1);
      assert (Pow2(n) - Pow2(k)) / 2 == Pow2(n - 1) - Pow2(k - 1) && (Pow2(n) - Pow2(k)) % 2 == 0;
      AndHalf(a, Pow2(n) - Pow2(k));
    }
  }

  lemma {:induction false} OrComm(a: nat, b: nat)
    ensures Or(a, b) == Or(b, a)
    decreases a + b
  {
    if a > 0 && b > 0 { OrComm(a / 2, b / 2); }
  }

  /** Packing two fields into one word and reading them back. */
  lemma PackFields(lo: nat, hi: nat, k: nat)
    requires lo < Pow2(k)
    ensures Or(Shl(hi, k), lo) == lo + Shl(hi, k)
    ensures Shr(Or(Shl(hi, k), lo), k) == hi
    ensures And(Or(Shl(hi, k), lo), Pow2(k) - 1) == lo
  {
    OrComm(lo, Shl(hi, k));
    OrDisjoint(lo, hi, k);
    SplitUnique(lo, hi, k);
    AndMask(lo + Shl(hi, k), k);
  }

  // ----- reading bits most significant first -----

  /** The n low bits of v read as a number whose first bit is the most significant. */
  function MsbFirst(v: nat, n: nat): nat {
    if n == 0 then 0 else 2 * MsbFirst(v, n - 1) + if Bit(v, n - 1) then 1 else 0
  }

  lemma {:induction false} BitMsbFirst(v: nat, n: nat, i: nat)
    ensures Bit(MsbFirst(v, n), i) == (i < n && Bit(v, n - 1 - i))
  {
    if n == 0 {
      BitZero(i);
    } else {
      var last := if Bit(v, n - 1) then 1 else 0;
      var m := 2 * MsbFirst(v, n - 1) + last;
      assert MsbFirst(v, n) == m;
      assert m / 2 == MsbFirst(v, n - 1) && m % 2 == last;
      if i > 0 { BitMsbFirst(v, n - 1, i - 1); }
    }
  }

  lemma {:induction false} MsbFirstBound(v: nat, n: nat)
    ensures MsbFirst(v, n) < Pow2(n)
  {
    if n > 0 { MsbFirstBound(v, n - 1); }
  }

  lemma {:induction false} MsbFirstPrefix(v: nat, n: nat, k: nat)
    requires k <= n
    ensures Shr(MsbFirst(v, n), n - k) == MsbFirst(v, k)
  {
    if k < n {
      assert MsbFirst(v, n) / 2 == MsbFirst(v, n - 1);
      MsbFirstPrefix(v, n - 1, k);
    }
  }

  lemma {:induction false} MsbFirstLow(v: nat, n: nat, k: nat)
    requires n <= k
    ensures MsbFirst(Low(v, k), n) == MsbFirst(v, n)
  {
    if n > 0 {
      BitLow(v, k, n - 1);
      MsbFirstLow(v, n - 1, k);
    }
  }

  /** Reversing twice gives the low bits back. */
  lemma MsbFirstTwice(v: nat, n: nat)
    ensures MsbFirst(MsbFirst(v, n), n) == Low(v, n)
  {
    var r := MsbFirst(v, n);
    forall i: nat ensures Bit(MsbFirst(r, n), i) == Bit(Low(v, n), i) {
      BitMsbFirst(r, n, i);
      BitLow(v, n, i);
      if i < n { BitMsbFirst(v, n, n - 1 - i); }
    }
    BitExtensional(MsbFirst(r, n), Low(v, n));
  }

  /** Reading n bits of v gives code exactly when v's low bits are the reversed code. */
  lemma MsbFirstInverse(v: nat, n: nat, code: nat)
    requires code < Pow2(n)
    ensures MsbFirst(v, n) == code <==> Low(v, n) == MsbFirst(code, n)
  {
    MsbFirstTwice(v, n);
    MsbFirstTwice(code, n);
    LowSmall(code, n);
    MsbFirstLow(v, n, n);
  }
}
