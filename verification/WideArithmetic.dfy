/** The emulator's 64-bit multiply and divide: 128-bit results from 64-bit words. A word is
    a natural number below 2^64; what the machine truncates is written out. */
module WideArithmetic {
  import opened Arithmetic

  const HALF := 0x1_0000_0000
  const WORD := 0x1_0000_0000_0000_0000
  const SIGN := 0x8000_0000_0000_0000

  predicate IsWord(x: int) { 0 <= x < WORD }

  function Wrapped(x: int): (w: nat)
    ensures IsWord(w)
  {
    x % WORD
  }

  lemma WrapIs(x: int, w: int, k: int)
    requires x == w + k * WORD && IsWord(w)
    ensures Wrapped(x) == w
  {
  }

  /** The signed reading of a word. */
  function Signed(x: int): int
    requires IsWord(x)
  {
    if x >= SIGN then x - WORD else x
  }

  // ----- products

  /** The high word of the unsigned product, from 32-bit halves. */
  function UmulHi(a: int, b: int): int
    requires IsWord(a) && IsWord(b)
  {
    var aLo, aHi, bLo, bHi := a % HALF, a / HALF, b % HALF, b / HALF;
    var ll, lh, hl, hh := Wrapped(aLo * bLo), Wrapped(aLo * bHi), Wrapped(aHi * bLo), Wrapped(aHi * bHi);
    var cross := Wrapped(ll / HALF + lh % HALF + hl % HALF);
    Wrapped(hh + lh / HALF + hl / HALF + cross / HALF)
  }

  lemma ProductFits(x: int, y: int)
    requires 0 <= x < HALF && 0 <= y < HALF
    ensures 0 <= x * y <= (HALF - 1) * (HALF - 1)
  {
    MulLe(0, x, y);
    MulLe(x, HALF - 1, y);
    MulLe(y, HALF - 1, HALF - 1);
  }

  lemma HalvesMultiply(a: int, b: int)
    ensures var aLo, aHi, bLo, bHi := a % HALF, a / HALF, b % HALF, b / HALF;
      a * b == aLo * bLo + (aLo * bHi + aHi * bLo) * HALF + aHi * bHi * WORD
  {
    var aLo, aHi, bLo, bHi := a % HALF, a / HALF, b % HALF, b / HALF;
    assert a == aLo + aHi * HALF && b == bLo + bHi * HALF;
    assert a * b == aLo * b + aHi * HALF * b;
    assert aLo * b == aLo * bLo + aLo * (bHi * HALF) == aLo * bLo + aLo * bHi * HALF;
    assert aHi * b == aHi * bLo + aHi * (bHi * HALF) == aHi * bLo + aHi * bHi * HALF;
    assert aHi * HALF * b == (aHi * b) * HALF;
  }

  /** It is the true high word: with the wrapped product it makes the whole product, and
      no intermediate sum overflows. */
  lemma UmulHiIsExact(a: int, b: int)
    requires IsWord(a) && IsWord(b)
    ensures UmulHi(a, b) == a * b / WORD
    ensures UmulHi(a, b) * WORD + Wrapped(a * b) == a * b
  {
    hide Wrapped;
    var aLo, aHi, bLo, bHi := a % HALF, a / HALF, b % HALF, b / HALF;
    ProductFits(aLo, bLo);
    ProductFits(aLo, bHi);
    ProductFits(aHi, bLo);
    ProductFits(aHi, bHi);
    HalvesMultiply(a, b);
    var p := a * b;
    DivModWord(p);
    CarriesAdd(p, aLo * bLo, aLo * bHi, aHi * bLo, aHi * bHi);
  }

  lemma CarriesAdd(p: int, ll: int, lh: int, hl: int, hh: int)
    requires p == ll + (lh + hl) * HALF + hh * WORD
    requires 0 <= ll <= (HALF - 1) * (HALF - 1) && 0 <= lh <= (HALF - 1) * (HALF - 1)
    requires 0 <= hl <= (HALF - 1) * (HALF - 1) && 0 <= hh <= (HALF - 1) * (HALF - 1)
    ensures var cross := Wrapped(Wrapped(ll) / HALF + Wrapped(lh) % HALF + Wrapped(hl) % HALF);
      Wrapped(Wrapped(hh) + Wrapped(lh) / HALF + Wrapped(hl) / HALF + cross / HALF) == p / WORD
  {
    var cross := ll / HALF + lh % HALF + hl % HALF;
    var hi := hh + lh / HALF + hl / HALF + cross / HALF;
    Recombine(p, ll / HALF, ll % HALF, lh / HALF, lh % HALF, hl / HALF, hl % HALF, hh, cross / HALF, cross % HALF);
    Fits(ll); Fits(lh); Fits(hl); Fits(hh); Fits(cross); Fits(hi);
    hide Wrapped;
  }

  lemma Fits(x: int)
    ensures IsWord(x) ==> Wrapped(x) == x
  {
  }

  lemma DivModWord(p: int)
    ensures p / WORD * WORD + Wrapped(p) == p
  {
  }

  lemma Recombine(p: int, llQ: int, llR: int, lhQ: int, lhR: int, hlQ: int, hlR: int, hh: int, cQ: int, cR: int)
    requires p == llQ * HALF + llR + (lhQ * HALF + lhR + hlQ * HALF + hlR) * HALF + hh * WORD
    requires llQ + lhR + hlR == cQ * HALF + cR && 0 <= cR < HALF && 0 <= llR < HALF
    ensures p / WORD == hh + lhQ + hlQ + cQ
  {
    assert p == (hh + lhQ + hlQ + cQ) * WORD + (cR * HALF + llR);
  }

  /** The high word of the signed product, corrected from the unsigned one. */
  function SmulHi(a: int, b: int): int
    requires IsWord(a) && IsWord(b)
  {
    var hi := UmulHi(a, b);
    var hi' := if a >= SIGN then Wrapped(hi - b) else hi;
    if b >= SIGN then Wrapped(hi' - a) else hi'
  }

  /** It is the true high word of the signed product, as a word. */
  lemma SmulHiIsExact(a: int, b: int)
    requires IsWord(a) && IsWord(b)
    ensures SmulHi(a, b) == Wrapped(Signed(a) * Signed(b) / WORD)
    ensures Wrapped(Signed(a) * Signed(b)) == Wrapped(a * b)
  {
    var p, q := a * b, Signed(a) * Signed(b);
    hide *;
    HighIs(a, b, p);
    SignedIs(a, b, p, q);
    SmulHiFrom(a, b, p, q);
  }

  lemma HighFits(a: int, b: int)
    requires IsWord(a) && IsWord(b)
    ensures IsWord(UmulHi(a, b))
  {
    hide IsWord;
  }

  lemma HighIs(a: int, b: int, p: int)
    requires IsWord(a) && IsWord(b) && p == a * b
    ensures UmulHi(a, b) == p / WORD && IsWord(UmulHi(a, b))
  {
    hide UmulHi;
    UmulHiIsExact(a, b);
    HighFits(a, b);
  }

  lemma SmulHiFrom(a: int, b: int, p: int, q: int)
    requires IsWord(a) && IsWord(b) && UmulHi(a, b) == p / WORD && IsWord(UmulHi(a, b))
    requires q == p + Correction(a, b) * WORD
    ensures SmulHi(a, b) == Wrapped(q / WORD) && Wrapped(q) == Wrapped(p)
  {
    hide UmulHi, Wrapped;
    ShiftedWord(p, Correction(a, b), q);
    HighCorrected(UmulHi(a, b), a, b);
  }

  /** The signed product is the unsigned one, corrected by multiples of a word. */
  lemma SignedIs(a: int, b: int, p: int, q: int)
    requires IsWord(a) && IsWord(b) && p == a * b && q == Signed(a) * Signed(b)
    ensures q == p + Correction(a, b) * WORD
  {
    SignedProduct(a, b, if a >= SIGN then 1 else 0, if b >= SIGN then 1 else 0);
  }

  function Correction(a: int, b: int): int {
    (if a >= SIGN && b >= SIGN then WORD else 0) - (if a >= SIGN then b else 0) - (if b >= SIGN then a else 0)
  }

  lemma HighCorrected(hi: int, a: int, b: int)
    requires IsWord(hi) && IsWord(a) && IsWord(b)
    ensures var hi' := if a >= SIGN then Wrapped(hi - b) else hi;
      (if b >= SIGN then Wrapped(hi' - a) else hi') == Wrapped(hi + Correction(a, b))
  {
    Fits(hi);
    if a >= SIGN && b >= SIGN { WrapTwice(hi - b, -a); }
  }

  lemma ShiftedWord(p: int, k: int, q: int)
    requires q == p + k * WORD
    ensures q / WORD == p / WORD + k && Wrapped(q) == Wrapped(p)
  {
  }

  lemma WrapTwice(x: int, y: int)
    ensures Wrapped(Wrapped(x) + y) == Wrapped(x + y) == Wrapped(x + y + WORD)
  {
  }

  lemma SignedProduct(a: int, b: int, s: int, t: int)
    requires 0 <= s <= 1 && 0 <= t <= 1
    ensures (a - s * WORD) * (b - t * WORD) == a * b
      + ((if s == 1 && t == 1 then WORD else 0) - (if s == 1 then b else 0) - (if t == 1 then a else 0)) * WORD
  {
    assert (a - WORD) * b == a * b - WORD * b;
    assert a * (b - WORD) == a * b - WORD * a;
    assert (a - WORD) * (b - WORD) == a * (b - WORD) - WORD * (b - WORD);
  }

  /** A signed 128-bit value from its two words. */
  function Signed128(hi: int, lo: int): int
    requires IsWord(hi) && IsWord(lo)
  {
    Signed(hi) * WORD + lo
  }

  // ----- long division

  function Pow2(n: nat): (p: nat)
    ensures p > 0
  {
    if n == 0 then 1 else 2 * Pow2(n - 1)
  }

  lemma {:induction false} Pow2Adds(m: nat, n: nat)
    ensures Pow2(m + n) == Pow2(m) * Pow2(n)
  {
    if n > 0 {
      Pow2Adds(m, n - 1);
      assert Pow2(m + n) == 2 * Pow2(m + (n - 1));
      assert Pow2(m) * Pow2(n) == Pow2(m) * (2 * Pow2(n - 1)) == 2 * (Pow2(m) * Pow2(n - 1));
    }
  }

  lemma Pow2Byte()
    ensures Pow2(8) == 256
  {
    assert Pow2(4) == 16;
  }

  lemma Pow2Words()
    ensures Pow2(64) == WORD && Pow2(128) == WORD * WORD
  {
    Pow2Byte();
    hide Pow2;
    Pow2Adds(8, 8);
    Pow2Adds(16, 16);
    Pow2Adds(32, 32);
    Pow2Adds(64, 64);
  }

  /** Bit i of hi * 2^64 + lo. */
  function BitOf(hi: int, lo: int, i: nat): int
    requires IsWord(hi) && IsWord(lo) && i < 128
  {
    if i >= 64 then hi / Pow2(i - 64) % 2 else lo / Pow2(i) % 2
  }

  lemma QuotientNonNegative(n: int, p: int)
    requires 0 <= n && 0 < p
    ensures 0 <= n / p
  {
    assert n == p * (n / p) + n % p;
    MulAtLeast(p, n / p);
  }

  /** The dividend down to bit i. */
  function Leading(hi: int, lo: int, i: nat): nat
    requires IsWord(hi) && IsWord(lo)
  {
    QuotientNonNegative(hi * WORD + lo, Pow2(i));
    (hi * WORD + lo) / Pow2(i)
  }

  lemma LeadingEnds(hi: int, lo: int)
    requires IsWord(hi) && IsWord(lo)
    ensures Leading(hi, lo, 128) == 0 && Leading(hi, lo, 0) == hi * WORD + lo
  {
    Pow2Words();
    MulLe(hi, WORD - 1, WORD);
  }

  /** The leading part down to bit i is twice the part above plus bit i. */
  lemma NextBit(hi: int, lo: int, i: nat)
    requires IsWord(hi) && IsWord(lo) && i < 128
    ensures Leading(hi, lo, i) == 2 * Leading(hi, lo, i + 1) + BitOf(hi, lo, i)
  {
    hide Pow2;
    DivDiv(hi * WORD + lo, Pow2(i), 2);
    TwicePow2(i);
    assert Pow2(i) * 2 == Pow2(i + 1);
    var x := Leading(hi, lo, i);
    if i >= 64 {
      HighPart(hi, lo, i);
      Halve(x, x, 0);
    } else {
      LowPart(hi, lo, i);
      Halve(x, lo / Pow2(i), hi * Pow2(63 - i));
    }
  }

  lemma Halve(x: int, y: int, k: int)
    requires x == 2 * k + y
    ensures x == 2 * (x / 2) + y % 2
  {
  }

  lemma HighPart(hi: int, lo: int, i: nat)
    requires IsWord(hi) && IsWord(lo) && 64 <= i
    ensures (hi * WORD + lo) / Pow2(i) == hi / Pow2(i - 64)
  {
    Pow2Words();
    hide Pow2;
    Pow2Adds(64, i - 64);
    DivDiv(hi * WORD + lo, WORD, Pow2(i - 64));
  }

  lemma LowPart(hi: int, lo: int, i: nat)
    requires IsWord(hi) && IsWord(lo) && i < 64
    ensures (hi * WORD + lo) / Pow2(i) == 2 * (hi * Pow2(63 - i)) + lo / Pow2(i)
  {
    Pow2Words();
    hide Pow2;
    Pow2Adds(i, 64 - i);
    TwicePow2(63 - i);
    EvenPart(hi, lo, Pow2(i), Pow2(63 - i));
  }

  lemma TwicePow2(n: nat)
    ensures Pow2(n + 1) == 2 * Pow2(n)
  {
  }

  lemma EvenPart(hi: int, lo: int, p: int, h: int)
    requires 0 < p && 0 <= lo && p * (2 * h) == WORD
    ensures (hi * WORD + lo) / p == 2 * (hi * h) + lo / p
  {
    assert lo == p * (lo / p) + lo % p;
    assert hi * WORD == hi * (p * (2 * h)) == p * (2 * (hi * h));
    assert p * (2 * (hi * h) + lo / p) == p * (2 * (hi * h)) + p * (lo / p);
    DivIs(hi * WORD + lo, p, 2 * (hi * h) + lo / p, lo % p);
  }

  /** Bit-by-bit division of the 128-bit value hi:lo. The remainder needs 65 bits on the way;
      the top bit shifted out stands for the missing one. */
  method Udiv128(hi: int, lo: int, d: int) returns (quot: int, rem: int)
    requires IsWord(hi) && IsWord(lo) && IsWord(d)
    ensures IsWord(quot) && IsWord(rem)
    ensures d > 0 ==> rem == (hi * WORD + lo) % d && quot == Wrapped((hi * WORD + lo) / d)
  {
    hide Leading, Wrapped;
    LeadingEnds(hi, lo);
    rem, quot := 0, 0;
    Fits(0);
    var i := 127;
    while i >= 0
      invariant -1 <= i <= 127 && IsWord(rem) && IsWord(quot)
      invariant d > 0 ==> rem == Leading(hi, lo, i + 1) % d && quot == Wrapped(Leading(hi, lo, i + 1) / d)
    {
      var bit := BitOf(hi, lo, i);
      var remTop := rem / SIGN;
      NextBit(hi, lo, i);
      if d > 0 { DivideStep(Leading(hi, lo, i + 1), bit, d, rem, quot); }
      rem := Wrapped(2 * rem + bit);
      quot := Wrapped(2 * quot);
      if remTop != 0 || rem >= d {
        rem := Wrapped(rem - d);
        quot := Wrapped(quot + 1);
      }
      i := i - 1;
    }
  }

  /** One step: the 65-bit remainder is compared with the divisor exactly. */
  lemma DivideStep(m: int, bit: int, d: int, rem: int, quot: int)
    requires 0 <= m && 0 <= bit <= 1 && 0 < d < WORD
    requires rem == m % d && quot == Wrapped(m / d)
    ensures var full := 2 * rem + bit;
      && (full >= d <==> rem / SIGN != 0 || Wrapped(full) >= d)
      && (2 * m + bit) % d == (if full >= d then Wrapped(Wrapped(full) - d) else Wrapped(full))
      && Wrapped((2 * m + bit) / d) == (if full >= d then Wrapped(Wrapped(2 * quot) + 1) else Wrapped(2 * quot))
  {
    var q := m / d;
    LongDivision(m, bit, d, q, rem);
    TopBit(rem, bit, d);
    Doubled(q, quot, if 2 * rem + bit >= d then 1 else 0);
  }

  lemma LongDivision(m: int, bit: int, d: int, q: int, rem: int)
    requires 0 < d && 0 <= bit <= 1 && q == m / d && rem == m % d
    ensures var full := 2 * rem + bit;
      && (2 * m + bit) / d == 2 * q + (if full >= d then 1 else 0)
      && (2 * m + bit) % d == (if full >= d then full - d else full)
  {
    var full := 2 * rem + bit;
    assert m == d * q + rem;
    assert d * (2 * q) == 2 * (d * q) && d * (2 * q + 1) == 2 * (d * q) + d;
    if full >= d {
      DivIs(2 * m + bit, d, 2 * q + 1, full - d);
    } else {
      DivIs(2 * m + bit, d, 2 * q, full);
    }
  }

  lemma TopBit(rem: int, bit: int, d: int)
    requires 0 <= rem < d < WORD && 0 <= bit <= 1
    ensures var full := 2 * rem + bit;
      && (full >= d <==> rem / SIGN != 0 || Wrapped(full) >= d)
      && (if full >= d then full - d == Wrapped(Wrapped(full) - d) else full == Wrapped(full))
  {
    var full := 2 * rem + bit;
    if rem >= SIGN { WrapIs(full, full - WORD, 1); }
  }

  lemma Doubled(q: int, quot: int, b: int)
    requires quot == Wrapped(q)
    ensures Wrapped(2 * q + b) == Wrapped(Wrapped(2 * quot) + b)
    ensures b == 0 ==> Wrapped(2 * q) == Wrapped(2 * quot)
  {
    var k := q / WORD;
    assert 2 * q == 2 * quot + 2 * k * WORD;
    ShiftedWord(2 * quot, 2 * k, 2 * q);
    ShiftedWord(2 * quot + b, 2 * k, 2 * q + b);
    WrapTwice(2 * quot, b);
  }

  // ----- the 64-bit instructions

  /** Division that truncates toward zero: the remainder takes the dividend's sign. */
  ghost predicate IsTruncated(v: int, d: int, q: int, r: int) {
    && v == d * q + r && (r == 0 || (r < 0 <==> v < 0))
    && -Magnitude(d) < r < Magnitude(d)
  }

  function Magnitude(x: int): int { if x < 0 then -x else x }

  function Negated(x: int): (y: int)
    requires IsWord(x)
    ensures IsWord(y)
  {
    Wrapped(WORD - 1 - x + 1)
  }

  class Cpu {
    var rax: int
    var rdx: int
    var cf: bool
    var of: bool

    ghost predicate Valid()
      reads this
    {
      IsWord(rax) && IsWord(rdx)
    }

    /** The product fills rdx:rax; the flags say whether rdx was needed. */
    method Mul64(val: int)
      requires Valid() && IsWord(val)
      modifies this
      ensures Valid() && rdx * WORD + rax == old(rax) * val
      ensures cf == of && (cf <==> old(rax) * val >= WORD)
    {
      UmulHiIsExact(rax, val);
      ProductIsNat(rax, val);
      hide UmulHi;
      var hi := UmulHi(rax, val);
      rax, rdx := Wrapped(rax * val), hi;
      cf, of := hi != 0, hi != 0;
    }

    /** The signed product fills rdx:rax; the flags are clear exactly when it fits rax. */
    method Imul64(val: int)
      requires Valid() && IsWord(val)
      modifies this
      ensures Valid() && Signed128(rdx, rax) == Signed(old(rax)) * Signed(val)
      ensures cf == of && (!cf <==> -SIGN <= Signed(old(rax)) * Signed(val) < SIGN)
    {
      var lo, hi := Wrapped(rax * val), SmulHi(rax, val);
      SmulHiIsExact(rax, val);
      hide SmulHi;
      ghost var p := Signed(rax) * Signed(val);
      SignedBound(Signed(rax), Signed(val));
      WordsOfProduct(p);
      rax, rdx := lo, hi;
      var fits := (lo < SIGN && hi == 0) || (lo >= SIGN && hi == WORD - 1);
      cf, of := !fits, !fits;
    }

    /** The quotient may be too wide for rax, which then keeps its low word. */
    method Div64(val: int) returns (divideByZero: bool)
      requires Valid() && IsWord(val)
      modifies this
      ensures Valid() && cf == old(cf) && of == old(of)
      ensures divideByZero <==> val == 0
      ensures divideByZero ==> rax == old(rax) && rdx == old(rdx)
      ensures !divideByZero ==>
        var n := old(rdx) * WORD + old(rax);
        rax == Wrapped(n / val) && rdx == n % val
    {
      if val == 0 { return true; }
      var quot, rem := Udiv128(rdx, rax, val);
      rax, rdx := quot, rem;
      divideByZero := false;
    }

    /** Signed division of rdx:rax, truncating toward zero, each result cut to a word. */
    method Idiv64(val: int) returns (divideByZero: bool, ghost q: int, ghost r: int)
      requires Valid() && IsWord(val)
      modifies this
      ensures Valid() && cf == old(cf) && of == old(of)
      ensures divideByZero <==> val == 0
      ensures divideByZero ==> rax == old(rax) && rdx == old(rdx)
      ensures !divideByZero ==>
        && IsTruncated(old(Signed128(rdx, rax)), Signed(val), q, r)
        && rax == Wrapped(q) && rdx == Wrapped(r)
    {
      hide IsTruncated, Wrapped, Negated;
      q, r := 0, 0;
      if val == 0 { return true, 0, 0; }
      var hi, lo := rdx, rax;
      var dividendNeg := hi >= SIGN;
      if dividendNeg {
        lo := Negated(lo);
        hi := Wrapped(WORD - 1 - hi + if lo == 0 then 1 else 0);
      }
      ghost var v := Signed128(rdx, rax);
      NegatedDividend(rdx, rax);
      NegatedDivisor(val);
      var divisorNeg := val >= SIGN;
      var ud := if divisorNeg then Negated(val) else val;
      var quot, rem := Udiv128(hi, lo, ud);
      var n, m := Magnitude(v), Magnitude(Signed(val));
      assert hi * WORD + lo == n && ud == m;
      q := if dividendNeg != divisorNeg then -(n / m) else n / m;
      r := if dividendNeg then -(n % m) else n % m;
      TruncatedBySigns(v, Signed(val));
      NegatedWord(n / m);
      NegatedWord(n % m);
      Fits(rem);
      if dividendNeg != divisorNeg { quot := Negated(quot); }
      if dividendNeg { rem := Negated(rem); }
      rax, rdx := quot, rem;
      divideByZero := false;
    }
  }

  lemma ProductIsNat(a: int, b: int)
    requires 0 <= a && 0 <= b
    ensures 0 <= a * b
  {
    MulLe(0, a, b);
  }

  lemma SignedBound(a: int, b: int)
    requires -SIGN <= a < SIGN && -SIGN <= b < SIGN
    ensures -SIGN * SIGN <= a * b <= SIGN * SIGN
  {
    var x, y := Magnitude(a), Magnitude(b);
    MulLe(x, SIGN, y);
    MulLe(y, SIGN, SIGN);
    MulLe(0, x, y);
    assert a * b == x * y || a * b == -(x * y);
  }

  /** The two words of a signed product read back as the product. */
  lemma WordsOfProduct(p: int)
    requires -SIGN * SIGN <= p <= SIGN * SIGN
    ensures Signed128(Wrapped(p / WORD), Wrapped(p)) == p
    ensures var hi, lo := Wrapped(p / WORD), Wrapped(p);
      (lo < SIGN && hi == 0) || (lo >= SIGN && hi == WORD - 1) <==> -SIGN <= p < SIGN
  {
  }

  lemma NegatedDividend(hi: int, lo: int)
    requires IsWord(hi) && IsWord(lo)
    ensures var l := Negated(lo);
      Signed128(hi, lo) < 0 <==> hi >= SIGN
    ensures hi >= SIGN ==>
      var l := Negated(lo);
      Wrapped(WORD - 1 - hi + if l == 0 then 1 else 0) * WORD + l == -Signed128(hi, lo)
  {
  }

  lemma NegatedDivisor(val: int)
    requires IsWord(val)
    ensures val >= SIGN ==> Negated(val) == -Signed(val)
  {
  }

  lemma NegatedWord(x: int)
    ensures Negated(Wrapped(x)) == Wrapped(-x)
  {
    DivModWord(x);
    ShiftedWord(-x, x / WORD + 1, WORD - Wrapped(x));
  }

  /** Dividing the magnitudes and putting the signs back truncates toward zero. */
  lemma TruncatedBySigns(v: int, d: int)
    requires d != 0
    ensures var n, m := Magnitude(v), Magnitude(d);
      IsTruncated(v, d, if (v < 0) != (d < 0) then -(n / m) else n / m, if v < 0 then -(n % m) else n % m)
  {
    var n, m := Magnitude(v), Magnitude(d);
    var q := n / m;
    assert n == m * q + n % m;
    assert d * q == if d < 0 then -(m * q) else m * q;
    assert d * -q == -(d * q);
  }
}
