/**
 * The order-preserving codec between the 32-bit pattern of an IEEE 754
 * binary32 value and an unsigned key (`sortable` / `unsortable` in
 * naive_bvh/main.cpp), and the seeding of the build-extent buffer with the
 * identities of atomic min and atomic max.
 *
 * A float is represented by its 32-bit pattern, never by a real number.
 * A 32-bit unsigned word is an integer in [0, 2^32); `^` and `|` are
 * defined bit by bit, `>>`, negation through int32_t and unsigned
 * subtraction by division and arithmetic modulo 2^32.
 */
module ExtentCodec {
  import opened Optional

  type Word = x: int | 0 <= x < 0x1_0000_0000

  const SignBit: Word := 0x8000_0000
  const AllOnes: Word := 0xFFFF_FFFF

  /** Bit pattern of FLT_MAX, the largest finite binary32 value. */
  const FltMax: Word := 0x7F7F_FFFF
  /** Bit pattern of -FLT_MAX. */
  const NegFltMax: Word := 0xFF7F_FFFF

  function Pow2(n: nat): (r: nat)
    ensures r >= 1
  {
    if n == 0 then 1 else 2 * Pow2(n - 1)
  }

  /** Bit `i` of `x`. */
  predicate Bit(x: nat, i: nat) {
    (x / Pow2(i)) % 2 == 1
  }

  /** The number whose bit `i` is `s[i]`. */
  function Value(s: seq<bool>): nat {
    if s == [] then 0 else Value(s[..|s| - 1]) + (if s[|s| - 1] then Pow2(|s| - 1) else 0)
  }

  /** The low `n` bits of `x`, least significant first. */
  function Bits(x: nat, n: nat): seq<bool> {
    seq(n, i requires 0 <= i => Bit(x, i))
  }

  /** `^` on `uint32_t`. */
  function Xor32(a: Word, b: Word): Word {
    var s := seq(32, i requires 0 <= i => Bit(a, i) != Bit(b, i));
    ValueBound(s);
    Pow2Facts();
    Value(s)
  }

  /** `|` on `uint32_t`. */
  function Or32(a: Word, b: Word): Word {
    var s := seq(32, i requires 0 <= i => Bit(a, i) || Bit(b, i));
    ValueBound(s);
    Pow2Facts();
    Value(s)
  }

  /** `x >> 31` on a `uint32_t`: the top bit. */
  function Top(x: Word): Word {
    x / 0x8000_0000
  }

  /** `uint32_t(-int32_t(x))`: two's complement negation, modulo 2^32. */
  function Negate32(x: Word): Word {
    (0x1_0000_0000 - x) % 0x1_0000_0000
  }

  /** `x - y` on `uint32_t`, modulo 2^32. */
  function Sub32(x: Word, y: Word): Word {
    (x - y) % 0x1_0000_0000
  }

  predicate IsNegative(f: Word) {
    Top(f) == 1
  }

  /** The pattern with its sign bit cleared. */
  function Magnitude(f: Word): nat {
    f % 0x8000_0000
  }

  /** Finite values: the biased exponent field (bits 23 to 30) is not all ones. */
  predicate IsFinite(f: Word) {
    Exponent(f) != 0xFF
  }

  /**
   * The totalOrder predicate of section 5.10 of IEEE 754-2008, strict form,
   * on binary32 patterns: every negative pattern precedes every non-negative
   * one (so -0 precedes +0), non-negative patterns ascend with their
   * magnitude and negative patterns descend with it.
   */
  predicate TotalOrderLess(a: Word, b: Word) {
    if IsNegative(a) && !IsNegative(b) then true
    else if !IsNegative(a) && IsNegative(b) then false
    else if !IsNegative(a) then Magnitude(a) < Magnitude(b)
    else Magnitude(a) > Magnitude(b)
  }

  /**
   * `sortable`: the mask is the sign bit, or-ed with the top bit negated as
   * a signed 32-bit value, and the pattern is xor-ed with it. So a negative
   * pattern's key is its bitwise complement, and a non-negative pattern's
   * key is the pattern with its top bit set.
   */
  function Sortable(f: Word): (r: Word)
    ensures IsNegative(f) ==> r == AllOnes - f
    ensures !IsNegative(f) ==> r == f + SignBit
  {
    TopBit(f);
    SortableMask(f);
    XorAllOnes(f);
    XorSignBit(f);
    var mask := Or32(Negate32(Top(f)), SignBit);
    Xor32(f, mask)
  }

  /**
   * `unsortable`: the mask is the sign bit, or-ed with the top bit minus one
   * in unsigned arithmetic, and the key is xor-ed with it. So a key with a
   * clear top bit decodes to its complement, and one with a set top bit to
   * the key with that bit cleared.
   */
  function Unsortable(u: Word): (r: Word)
    ensures Top(u) == 0 ==> r == AllOnes - u
    ensures Top(u) != 0 ==> r == u - SignBit
  {
    TopBit(u);
    UnsortableMask(u);
    XorAllOnes(u);
    XorSignBit(u);
    var mask := Or32(Sub32(Top(u), 1), SignBit);
    Xor32(u, mask)
  }

  // Arithmetic facts.

  lemma {:induction false} Pow2Add(a: nat, b: nat)
    ensures Pow2(a + b) == Pow2(a) * Pow2(b)
  {
    if b > 0 {
      Pow2Add(a, b - 1);
      assert Pow2(a + b) == 2 * Pow2(a + b - 1);
    }
  }

  lemma Pow2Facts()
    ensures Pow2(31) == 0x8000_0000 && Pow2(32) == 0x1_0000_0000
  {
    assert Pow2(7) == 0x80 && Pow2(8) == 0x100;
    Pow2Add(8, 7);
    Pow2Add(8, 8);
    Pow2Add(15, 16);
    Pow2Add(16, 16);
  }

  lemma MulAtLeast(k: int, d: int)
    requires k >= 1 && d > 0
    ensures k * d >= d
  {
    assert k * d == (k - 1) * d + d;
    assert (k - 1) * d >= 0;
  }

  /** The remainder is determined by any quotient-remainder decomposition. */
  lemma DivModUnique(x: int, d: int, q: int, r: int)
    requires d > 0 && 0 <= r < d && x == q * d + r
    ensures x % d == r
  {
    var q', r' := x / d, x % d;
    assert x == q' * d + r';
    var k := q - q';
    assert k * d == q * d - q' * d;
    assert k * d == r' - r;
    if k >= 1 {
      MulAtLeast(k, d);
    } else if k <= -1 {
      MulAtLeast(-k, d);
    }
  }

  /** Taking one more bit adds that bit's weight to the remainder. */
  lemma DivMod2(x: nat, p: nat)
    requires p > 0
    ensures x % (2 * p) == x % p + (if (x / p) % 2 == 1 then p else 0)
  {
    var q, r := x / p, x % p;
    var h, b := q / 2, q % 2;
    assert x == q * p + r;
    assert q * p == h * (2 * p) + b * p;
    DivModUnique(x, 2 * p, h, b * p + r);
  }

  // Facts about bit sequences and their values.

  lemma {:induction false} ValueBound(s: seq<bool>)
    ensures Value(s) < Pow2(|s|)
  {
    if s != [] {
      ValueBound(s[..|s| - 1]);
    }
  }

  /** The low `n` bits of `x` are worth `x` modulo 2^n. */
  lemma {:induction false} ValueOfBits(x: nat, n: nat)
    ensures Value(Bits(x, n)) == x % Pow2(n)
  {
    if n > 0 {
      ValueOfBits(x, n - 1);
      assert Bits(x, n)[..n - 1] == Bits(x, n - 1);
      DivMod2(x, Pow2(n - 1));
    }
  }

  /** A sequence and its complement are worth 2^n - 1 together. */
  lemma {:induction false} ValueComplement(s: seq<bool>)
    ensures Value(s) + Value(seq(|s|, i requires 0 <= i < |s| => !s[i])) == Pow2(|s|) - 1
  {
    if s != [] {
      var n := |s|;
      ValueComplement(s[..n - 1]);
      assert seq(n, i requires 0 <= i < n => !s[i])[..n - 1]
          == seq(n - 1, i requires 0 <= i < n - 1 => !s[..n - 1][i]);
    }
  }

  /** Only the all-false sequence is worth zero. */
  lemma {:induction false} ValueZero(s: seq<bool>)
    requires Value(s) == 0
    ensures forall i :: 0 <= i < |s| ==> !s[i]
  {
    if s != [] {
      ValueZero(s[..|s| - 1]);
    }
  }

  /** Only the all-true sequence is worth 2^n - 1. */
  lemma {:induction false} ValueFull(s: seq<bool>)
    requires Value(s) == Pow2(|s|) - 1
    ensures forall i :: 0 <= i < |s| ==> s[i]
  {
    if s != [] {
      var n := |s|;
      ValueBound(s[..n - 1]);
      ValueFull(s[..n - 1]);
      assert forall i :: 0 <= i < n - 1 ==> s[..n - 1][i] == s[i];
    }
  }

  /** Every bit of 0xFFFFFFFF is set. */
  lemma AllOnesBits()
    ensures forall i :: 0 <= i < 32 ==> Bit(AllOnes, i)
  {
    Pow2Facts();
    var s := Bits(AllOnes, 32);
    ValueOfBits(AllOnes, 32);
    ValueFull(s);
    assert forall i :: 0 <= i < 32 ==> s[i] == Bit(AllOnes, i);
  }

  /** Bit 31 is the only bit of 0x80000000. */
  lemma SignBitBits()
    ensures forall i :: 0 <= i < 32 ==> (Bit(SignBit, i) <==> i == 31)
  {
    Pow2Facts();
    var s := Bits(SignBit, 32);
    ValueOfBits(SignBit, 32);
    ValueBound(s[..31]);
    ValueZero(s[..31]);
    assert forall i :: 0 <= i < 31 ==> s[..31][i] == Bit(SignBit, i);
  }

  /** Bit 31 of a word is set exactly when the word is at least 2^31. */
  lemma TopBit(f: Word)
    ensures Bit(f, 31) <==> f >= 0x8000_0000
    ensures Top(f) == if f >= 0x8000_0000 then 1 else 0
  {
    Pow2Facts();
  }

  // The masks and the xors, one sign case at a time.

  lemma OrSignBit(x: Word)
    requires x == 0 || x == AllOnes
    ensures Or32(x, SignBit) == if x == 0 then SignBit else AllOnes
  {
    Pow2Facts();
    AllOnesBits();
    SignBitBits();
    var s := seq(32, i requires 0 <= i => Bit(x, i) || Bit(SignBit, i));
    if x == 0 {
      assert s == Bits(SignBit, 32);
      ValueOfBits(SignBit, 32);
    } else {
      assert s == Bits(AllOnes, 32);
      ValueOfBits(AllOnes, 32);
    }
  }

  /** Xor with all ones complements a word. */
  lemma XorAllOnes(f: Word)
    ensures Xor32(f, AllOnes) == AllOnes - f
  {
    Pow2Facts();
    AllOnesBits();
    var b := Bits(f, 32);
    assert seq(32, i requires 0 <= i => Bit(f, i) != Bit(AllOnes, i))
        == seq(|b|, i requires 0 <= i < |b| => !b[i]);
    ValueComplement(b);
    ValueOfBits(f, 32);
  }

  /** Xor with the sign bit sets or clears bit 31. */
  lemma XorSignBit(f: Word)
    ensures Xor32(f, SignBit) == if f < 0x8000_0000 then f + 0x8000_0000 else f - 0x8000_0000
  {
    Pow2Facts();
    SignBitBits();
    TopBit(f);
    var s := seq(32, i requires 0 <= i => Bit(f, i) != Bit(SignBit, i));
    assert s[..31] == Bits(f, 31);
    ValueOfBits(f, 31);
    ValueOfBits(f, 32);
    assert Bits(f, 32)[..31] == Bits(f, 31);
  }

  lemma SortableMask(f: Word)
    ensures Or32(Negate32(Top(f)), SignBit) == if IsNegative(f) then AllOnes else SignBit
  {
    TopBit(f);
    OrSignBit(Negate32(Top(f)));
  }

  lemma UnsortableMask(u: Word)
    ensures Or32(Sub32(Top(u), 1), SignBit) == if Top(u) == 0 then AllOnes else SignBit
  {
    TopBit(u);
    OrSignBit(Sub32(Top(u), 1));
  }

  /**
   * The top bit of a key is the complement of the pattern's sign bit:
   * negative patterns map into [0, 0x7FFFFFFF], non-negative ones into
   * [0x80000000, 0xFFFFFFFF].
   */
  lemma SortableSplitsBySign(f: Word)
    ensures Top(Sortable(f)) == 1 - Top(f)
    ensures IsNegative(f) ==> Sortable(f) <= 0x7FFF_FFFF
    ensures !IsNegative(f) ==> 0x8000_0000 <= Sortable(f)
  {
    TopBit(f);
  }

  /** The codec is a bijection on 32-bit patterns. */
  lemma SortableRoundTrip(f: Word, u: Word)
    ensures Unsortable(Sortable(f)) == f
    ensures Sortable(Unsortable(u)) == u
  {
    TopBit(f);
    TopBit(u);
  }

  /** `sortable` is strictly monotone against totalOrder, in both directions. */
  lemma SortableMonotone(a: Word, b: Word)
    ensures TotalOrderLess(a, b) <==> Sortable(a) < Sortable(b)
  {
    TopBit(a);
    TopBit(b);
  }

  /** Key stored in an even (min) slot before accumulation: sortable(FLT_MAX). */
  function MinSeed(): Word {
    Sortable(FltMax)
  }

  /** Key stored in an odd (max) slot before accumulation: sortable(-FLT_MAX). */
  function MaxSeed(): Word {
    Sortable(NegFltMax)
  }

  /** The seeds' values, and that they decode back to FLT_MAX and -FLT_MAX. */
  lemma SeedValues()
    ensures MinSeed() == 0xFF7F_FFFF && MaxSeed() == 0x0080_0000
    ensures Unsortable(MinSeed()) == FltMax && Unsortable(MaxSeed()) == NegFltMax
  {
    TopBit(FltMax);
    TopBit(NegFltMax);
    SortableRoundTrip(FltMax, 0);
    SortableRoundTrip(NegFltMax, 0);
  }

  /** Exactly infinities and NaNs have an all-ones exponent field. */
  lemma FiniteRanges(x: Word)
    ensures IsFinite(x) <==> x < 0x7F80_0000 || 0x8000_0000 <= x < 0xFF80_0000
  {
    var e := x / 0x80_0000;
    assert 0 <= e < 0x200;
    assert e * 0x80_0000 <= x < e * 0x80_0000 + 0x80_0000;
  }

  /** Every finite pattern's key lies between the two seeds. */
  lemma FiniteBetweenSeeds(x: Word)
    requires IsFinite(x)
    ensures MaxSeed() <= Sortable(x) <= MinSeed()
  {
    SeedValues();
    FiniteRanges(x);
    TopBit(x);
  }

  /**
   * The seeding loop of `main`: `2 * dim` slots, even slots get
   * sortable(FLT_MAX), odd slots get sortable(-FLT_MAX).
   */
  method SeedExtents(dim: nat) returns (val: array<Word>)
    ensures val.Length == 2 * dim
    ensures forall i :: 0 <= i < val.Length && i % 2 == 0 ==> val[i] == MinSeed()
    ensures forall i :: 0 <= i < val.Length && i % 2 == 1 ==> val[i] == MaxSeed()
  {
    val := new Word[dim * 2];
    var i := 0;
    while i < val.Length
      invariant 0 <= i <= val.Length
      invariant forall j :: 0 <= j < i && j % 2 == 0 ==> val[j] == MinSeed()
      invariant forall j :: 0 <= j < i && j % 2 == 1 ==> val[j] == MaxSeed()
    {
      val[i] := Sortable(if i % 2 == 0 then FltMax else NegFltMax);
      i := i + 1;
    }
  }

  function UMin(a: Word, b: Word): Word { if a <= b then a else b }
  function UMax(a: Word, b: Word): Word { if a <= b then b else a }

  /** An atomic-min slot after the keys of `xs` were folded into it, in order. */
  function MinAccumulated(seed: Word, xs: seq<Word>): Word {
    if xs == [] then seed else UMin(MinAccumulated(seed, xs[..|xs| - 1]), Sortable(xs[|xs| - 1]))
  }

  /** An atomic-max slot after the keys of `xs` were folded into it, in order. */
  function MaxAccumulated(seed: Word, xs: seq<Word>): Word {
    if xs == [] then seed else UMax(MaxAccumulated(seed, xs[..|xs| - 1]), Sortable(xs[|xs| - 1]))
  }

  /** A min slot holds the least of its seed and the keys folded into it. */
  lemma {:induction false} MinAccumulatedIsLeast(seed: Word, xs: seq<Word>)
    ensures MinAccumulated(seed, xs) <= seed
    ensures forall i :: 0 <= i < |xs| ==> MinAccumulated(seed, xs) <= Sortable(xs[i])
    ensures MinAccumulated(seed, xs) == seed
            || exists k :: 0 <= k < |xs| && MinAccumulated(seed, xs) == Sortable(xs[k])
  {
    if xs != [] {
      var n := |xs| - 1;
      MinAccumulatedIsLeast(seed, xs[..n]);
      assert forall i :: 0 <= i < n ==> xs[..n][i] == xs[i];
    }
  }

  /** A max slot holds the greatest of its seed and the keys folded into it. */
  lemma {:induction false} MaxAccumulatedIsGreatest(seed: Word, xs: seq<Word>)
    ensures seed <= MaxAccumulated(seed, xs)
    ensures forall i :: 0 <= i < |xs| ==> Sortable(xs[i]) <= MaxAccumulated(seed, xs)
    ensures MaxAccumulated(seed, xs) == seed
            || exists k :: 0 <= k < |xs| && MaxAccumulated(seed, xs) == Sortable(xs[k])
  {
    if xs != [] {
      var n := |xs| - 1;
      MaxAccumulatedIsGreatest(seed, xs[..n]);
      assert forall i :: 0 <= i < n ==> xs[..n][i] == xs[i];
    }
  }

  /** A non-empty min slot holds the key of one of the coordinates folded into it. */
  lemma MinWitness(xs: seq<Word>) returns (k: int)
    requires xs != [] && forall i :: 0 <= i < |xs| ==> IsFinite(xs[i])
    ensures 0 <= k < |xs| && MinAccumulated(MinSeed(), xs) == Sortable(xs[k])
  {
    MinAccumulatedIsLeast(MinSeed(), xs);
    if MinAccumulated(MinSeed(), xs) == MinSeed() {
      FiniteBetweenSeeds(xs[0]);
      k := 0;
    } else {
      k :| 0 <= k < |xs| && MinAccumulated(MinSeed(), xs) == Sortable(xs[k]);
    }
  }

  /** A non-empty max slot holds the key of one of the coordinates folded into it. */
  lemma MaxWitness(xs: seq<Word>) returns (k: int)
    requires xs != [] && forall i :: 0 <= i < |xs| ==> IsFinite(xs[i])
    ensures 0 <= k < |xs| && MaxAccumulated(MaxSeed(), xs) == Sortable(xs[k])
  {
    MaxAccumulatedIsGreatest(MaxSeed(), xs);
    if MaxAccumulated(MaxSeed(), xs) == MaxSeed() {
      FiniteBetweenSeeds(xs[0]);
      k := 0;
    } else {
      k :| 0 <= k < |xs| && MaxAccumulated(MaxSeed(), xs) == Sortable(xs[k]);
    }
  }

  /**
   * Seeding with sortable(FLT_MAX) makes atomic min compute the totalOrder
   * minimum: an untouched slot decodes to FLT_MAX, and after a non-empty
   * run of finite coordinates the slot decodes to one of them that no
   * coordinate precedes.
   */
  lemma MinSeedIsIdentity(xs: seq<Word>)
    requires forall i :: 0 <= i < |xs| ==> IsFinite(xs[i])
    ensures xs == [] ==> Unsortable(MinAccumulated(MinSeed(), xs)) == FltMax
    ensures xs != [] ==> exists k :: 0 <= k < |xs| && Unsortable(MinAccumulated(MinSeed(), xs)) == xs[k]
    ensures forall i :: 0 <= i < |xs| ==> !TotalOrderLess(xs[i], Unsortable(MinAccumulated(MinSeed(), xs)))
  {
    var m := MinAccumulated(MinSeed(), xs);
    if xs == [] {
      SeedValues();
    } else {
      var k := MinWitness(xs);
      SortableRoundTrip(xs[k], m);
    }
    MinAccumulatedIsLeast(MinSeed(), xs);
    forall i | 0 <= i < |xs|
      ensures !TotalOrderLess(xs[i], Unsortable(m))
    {
      SortableRoundTrip(xs[i], m);
      SortableMonotone(xs[i], Unsortable(m));
    }
  }

  /**
   * Seeding with sortable(-FLT_MAX) makes atomic max compute the totalOrder
   * maximum: an untouched slot decodes to -FLT_MAX, and after a non-empty
   * run of finite coordinates the slot decodes to one of them that precedes
   * no coordinate.
   */
  lemma MaxSeedIsIdentity(xs: seq<Word>)
    requires forall i :: 0 <= i < |xs| ==> IsFinite(xs[i])
    ensures xs == [] ==> Unsortable(MaxAccumulated(MaxSeed(), xs)) == NegFltMax
    ensures xs != [] ==> exists k :: 0 <= k < |xs| && Unsortable(MaxAccumulated(MaxSeed(), xs)) == xs[k]
    ensures forall i :: 0 <= i < |xs| ==> !TotalOrderLess(Unsortable(MaxAccumulated(MaxSeed(), xs)), xs[i])
  {
    var m := MaxAccumulated(MaxSeed(), xs);
    if xs == [] {
      SeedValues();
    } else {
      var k := MaxWitness(xs);
      SortableRoundTrip(xs[k], m);
    }
    MaxAccumulatedIsGreatest(MaxSeed(), xs);
    forall i | 0 <= i < |xs|
      ensures !TotalOrderLess(Unsortable(m), xs[i])
    {
      SortableRoundTrip(xs[i], m);
      SortableMonotone(Unsortable(m), xs[i]);
    }
  }

  // The conversion the code performs at the head of `sortable`.

  /** The biased exponent field of a binary32 pattern, bits 23 to 30. */
  function Exponent(f: Word): nat {
    (f / 0x80_0000) % 0x100
  }

  /** The fraction field of a binary32 pattern, bits 0 to 22. */
  function Fraction(f: Word): nat {
    f % 0x80_0000
  }

  /**
   * The implicit conversion of a float to `uint32_t`: the value truncated
   * toward zero, or `None` where the conversion is undefined: NaNs,
   * infinities, and values whose truncation lies outside [0, 2^32).
   */
  function FloatToUint32(f: Word): (r: Option<Word>)
    ensures r.Some? ==> IsFinite(f)
    ensures r.Some? && IsNegative(f) ==> r.value == 0
    ensures Exponent(f) < 127 ==> r == Some(0)
  {
    var e := Exponent(f);
    if e == 0xFF then None
    else if e < 127 then Some(0)
    else if IsNegative(f) || e >= 127 + 32 then None
    else
      var significand := 0x80_0000 + Fraction(f);
      var truncated := if e >= 150 then significand * Pow2(e - 150) else significand / Pow2(150 - e);
      // For exponents below 159 the truncated value is below 2^24 * 2^8 = 2^32,
      // so this guard never fails; it only lets the result be a `Word`.
      if truncated < 0x1_0000_0000 then Some(truncated) else None
  }

  /**
   * `sortable` as written: the float's value, converted to `uint32_t`, is
   * encoded in place of its bit pattern; `None` where the conversion is
   * undefined.
   */
  function SortableAsWritten(ff: Word): (r: Option<Word>)
    ensures r.Some? ==> IsFinite(ff)
  {
    match FloatToUint32(ff)
    case None => None
    case Some(f) => Some(Sortable(f))
  }

  lemma Pow2Of23()
    ensures Pow2(23) == 0x80_0000
  {
    assert Pow2(7) == 0x80 && Pow2(8) == 0x100;
    Pow2Add(8, 7);
    Pow2Add(15, 8);
  }

  /** A non-negative value below 2^23 and at least 1 converts to its significand shifted right. */
  lemma SmallTruncation(f: Word)
    requires !IsNegative(f) && 127 <= Exponent(f) < 150
    ensures FloatToUint32(f) == Some((0x80_0000 + Fraction(f)) / Pow2(150 - Exponent(f)))
  {
    var significand := 0x80_0000 + Fraction(f);
    var p := Pow2(150 - Exponent(f));
    if significand / p >= 1 {
      MulAtLeast(p, significand / p);
    }
  }

  /**
   * As written, every value in [1, 2) truncates to 1, so all 2^23 of them
   * get the same key, and that key decodes to the pattern 1 (a subnormal)
   * rather than to any of them: the round trip that `SortableRoundTrip`
   * proves for the bit-pattern codec fails.
   */
  lemma SortableAsWrittenCollapses(f: Word)
    requires !IsNegative(f) && Exponent(f) == 127
    ensures SortableAsWritten(f) == Some(0x8000_0001)
    ensures Unsortable(0x8000_0001) == 1 != f
  {
    Pow2Of23();
    SmallTruncation(f);
    var significand := 0x80_0000 + Fraction(f);
    assert significand / 0x80_0000 == 1;
    TopBit(1);
    TopBit(0x8000_0001);
  }

  /** 1.5f and 1.25f, two different patterns, get the same key as written. */
  lemma SortableAsWrittenCollides()
    ensures SortableAsWritten(0x3FC0_0000) == SortableAsWritten(0x3FA0_0000) == Some(0x8000_0001)
    ensures Unsortable(0x8000_0001) != 0x3FC0_0000
  {
    TopBit(0x3FC0_0000);
    TopBit(0x3FA0_0000);
    SortableAsWrittenCollapses(0x3FC0_0000);
    SortableAsWrittenCollapses(0x3FA0_0000);
  }

  /**
   * As written, both seeds of the extent buffer are undefined: FLT_MAX is
   * far above 2^32 and -FLT_MAX is negative.
   */
  lemma SeedsUndefinedAsWritten()
    ensures SortableAsWritten(FltMax) == None && SortableAsWritten(NegFltMax) == None
  {
    TopBit(FltMax);
    TopBit(NegFltMax);
    assert Exponent(FltMax) == 254 && Exponent(NegFltMax) == 254;
  }
}
