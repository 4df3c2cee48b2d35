/** Frexp and Ldexp of package math: taking a number apart and scaling it by a
    power of two. */
module Scaling {
  import opened Words
  import opened Float64
  import opened FloatOps

  // ----- exponent field surgery -----

  /** x &^= mask << shift; x |= e << shift */
  function SetExpo(x: Word, e: nat): Word
    requires e < 2048
  {
    OrWord(AndNotWord(x, INF), Shl(e, 52))
  }

  lemma SetExpoValue(x: Word, e: nat)
    requires 0 < e < 2048
    ensures SetExpo(x, e) == WithSign(SignBit(x), Compose(e - 1, FRAC + Abs(x) % 0x10_0000_0000_0000))
  {
    hide Pow2, Shr, Low, Shl, Or, AndNot;
    var s, f := SignBit(x), Abs(x) % 0x10_0000_0000_0000;
    var h := s * 2048 + Abs(x) / 0x10_0000_0000_0000;
    Fields(x);
    Pow2Values();
    PlaceExpo(e);
    AndNotShifted(x, 2047, 52, INF);
    AndNotMask(h, 11);
    SplitUnique(h, 11, s, Abs(x) / 0x10_0000_0000_0000);
    SplitUnique(s * 2048, 11, s, 0);
    OrParts(s * 2048, f, e, 0, 52, s * SIGN + f, e * 0x10_0000_0000_0000);
    OrDisjoint(s * 2048, e, 11);
    OrZero(f);
  }

  // ----- normalize -----

  const TWO52: Word := 0x4330_0000_0000_0000
  const TWO_53: Word := 0x3CA0_0000_0000_0000  // 2^-53

  /** bits.go line 56: normalize */
  function Normalize(x: Word): (Word, int) {
    if Abs(x) < FRAC then (FMul(x, TWO52), -52) else (x, 0)
  }

  /** The value q * 2^(k + 1022) of a finite pattern, q having 53 bits. The factor
      2^52 keeps subnormal exponents natural. */
  ghost predicate Parts(x: Word, q: nat, k: int) {
    && FRAC <= q < 2 * FRAC
    && -1074 <= k <= 1023
    && Mag(Abs(x)) * Pow2(52) == q * Pow2(k + 1074)
  }

  predicate Regular(x: Word) { 0 < Abs(x) < INF }

  lemma NormalParts(a: nat)
    requires FRAC <= a < INF
    ensures 1 <= a / 0x10_0000_0000_0000 <= 2046
    ensures Mag(a) == (FRAC + a % 0x10_0000_0000_0000) * Pow2(a / 0x10_0000_0000_0000 - 1)
  {
    hide Pow2, Mag;
    MagCompose(a / 0x10_0000_0000_0000 - 1, FRAC + a % 0x10_0000_0000_0000);
  }

  lemma MagTwo52()
    ensures Mag(TWO52) == Pow2(52) * Pow2(1074)
  {
    hide Pow2, Mag;
    MagCompose(1074, FRAC);
    Pow2Values();
  }

  /** x * 2^52 for a subnormal x is exact and normal. */
  lemma SubnormalTimesTwo52(x: Word) returns (b: nat)
    requires 0 < Abs(x) < FRAC
    ensures FRAC <= b < INF && FMul(x, TWO52) == WithSign(SignBit(x), b)
    ensures Mag(b) == Mag(Abs(x)) * Pow2(52)
  {
    hide Pow2, Mag, FMul;
    var a := Abs(x);
    SmallMag(a);
    SmallMag(FRAC);
    Pow2Values();
    MulMono(a, FRAC, Pow2(52));
    MagTwo52();
    MagInfinity();
    b := ScaledRepresentable(a, 52);
    MulMono(1, a, Pow2(52));
    MagMonotone(b, FRAC);
    MulAssoc(a, Pow2(52), Pow2(1074));
    MulExact(x, TWO52, b);
  }

  lemma MagInfinity()
    ensures Mag(INF) == Pow2(52) * Pow2(2046)
    ensures Pow2(52) * Pow2(52) < Mag(INF)
  {
    hide Pow2, Mag;
    MagCompose(2046, FRAC);
    Pow2Values();
    Pow2Monotone(52, 2046);
    MulStrict(Pow2(52), Pow2(2046), Pow2(52));
  }

  lemma NormalizeValue(x: Word) returns (q: nat, k: int)
    requires Regular(x)
    ensures Parts(x, q, k)
    ensures var (g, e) := Normalize(x);
      && FRAC <= Abs(g) < INF && SignBit(g) == SignBit(x)
      && q == FRAC + Abs(g) % 0x10_0000_0000_0000
      && k == e + Abs(g) / 0x10_0000_0000_0000 - 1023
  {
    hide Pow2, Mag, FMul;
    var a := Abs(x);
    if a < FRAC {
      var b := SubnormalTimesTwo52(x);
      NormalParts(b);
      q, k := FRAC + b % 0x10_0000_0000_0000, (b / 0x10_0000_0000_0000) as int - 1075;
    } else {
      NormalParts(a);
      q, k := FRAC + a % 0x10_0000_0000_0000, (a / 0x10_0000_0000_0000) as int - 1023;
      Pow2Add(a / 0x10_0000_0000_0000 - 1, 52);
      MulAssoc(q, Pow2(a / 0x10_0000_0000_0000 - 1), Pow2(52));
    }
  }

  /** The parts of a number are unique. */
  lemma PartsUnique(x: Word, q: nat, k: int, q': nat, k': int)
    requires Parts(x, q, k) && Parts(x, q', k')
    ensures q == q' && k == k'
  {
    hide Pow2, Mag;
    if k < k' {
      PartsOrder(q, k, q', k');
    } else if k' < k {
      PartsOrder(q', k', q, k);
    }
    MulCancel(q, q', Pow2(k + 1074));
  }

  lemma PartsOrder(q: nat, k: int, q': nat, k': int)
    requires q < 2 * FRAC && q' >= FRAC && -1074 <= k < k'
    ensures q * Pow2(k + 1074) < q' * Pow2(k' + 1074)
  {
    hide Pow2;
    var p := Pow2(k + 1074);
    Pow2Monotone(k + 1074, k' + 1074);
    MulStrict(q, 2 * FRAC, p);
    MulMono(2 * p, Pow2(k' + 1074), FRAC);
    MulMono(FRAC, q', Pow2(k' + 1074));
  }

  // ----- Frexp -----

  /** frexp.go line 23: frexp */
  function Frexp(f: Word): (Word, int) {
    if IsZero(f) || !IsFinite(f) then (f, 0)
    else
      var g := Normalize(f);
      (SetExpo(g.0, 1022), g.1 + ExpoField(g.0) - 1023 + 1)
  }

  /** The fraction lies in [1/2, 1), and f is the fraction times 2^exp. */
  lemma FrexpValue(f: Word) returns (q: nat, k: int)
    requires Regular(f)
    ensures Parts(f, q, k)
    ensures Frexp(f) == (WithSign(SignBit(f), Compose(1021, q)), k + 1)
  {
    hide Pow2, Mag, Shr, Low, And, Or, AndNot, FMul, SetExpo, Normalize;
    q, k := NormalizeValue(f);
    var g := Normalize(f);
    SetExpoValue(g.0, 1022);
    ExpoFieldValue(g.0);
  }

  /** ... as documented: 2^1073 <= |fraction| < 2^1074 in units of 2^-1074, and
      scaling it by the exponent gives f back. */
  lemma FrexpSpec(f: Word)
    requires Regular(f)
    ensures var (frac, exp) := Frexp(f);
      && SignBit(frac) == SignBit(f)
      && -1073 <= exp <= 1024
      && Pow2(1073) <= Mag(Abs(frac)) < Pow2(1074)
      && Mag(Abs(f)) * Pow2(1074) == Mag(Abs(frac)) * Pow2(exp + 1074)
  {
    hide Pow2, Mag, Frexp;
    var q, k := FrexpValue(f);
    MagCompose(1021, q);
    Pow2Values();
    Pow2Add(52, 1021);
    Pow2Add(53, 1021);
    MulMono(FRAC, q, Pow2(1021));
    MulStrict(q, 2 * FRAC, Pow2(1021));
    Pow2Add(52, 1022);
    MulAssoc(Mag(Abs(f)), Pow2(52), Pow2(1022));
    Pow2Add(k + 1074, 1022);
    MulAssoc(q, Pow2(k + 1074), Pow2(1022));
    Pow2Add(1021, k + 1075);
    MulAssoc(q, Pow2(1021), Pow2(k + 1075));
  }

  // ----- Ldexp -----

  const INT_MIN: int := -0x8000_0000_0000_0000
  const INT_MAX: int := 0x7FFF_FFFF_FFFF_FFFF

  /** Wrap-around of the 64-bit type int. */
  function Int64(v: int): int { (v + 0x8000_0000_0000_0000) % 0x1_0000_0000_0000_0000 - 0x8000_0000_0000_0000 }

  /** ldexp.go line 21: ldexp */
  function Ldexp(frac: Word, exp0: int): Word {
    if IsZero(frac) || !IsFinite(frac) then frac
    else
      var g := Normalize(frac);
      var exp := Int64(Int64(exp0 + g.1) + ExpoField(g.0) - 1023);
      if exp < -1075 then WithSign(SignBit(g.0), 0)
      else if exp > 1023 then WithSign(SignBit(g.0), INF)
      else if exp < -1022 then FMul(TWO_53, SetExpo(g.0, exp + 53 + 1023))
      else FMul(ONE, SetExpo(g.0, exp + 1023))
  }

  /** The exact value of frac * 2^exp as a fraction n / d. */
  function ScaledNum(frac: Word, exp: int): nat { Mag(Abs(frac)) * Pow2(if exp >= 0 then exp else 0) }

  function ScaledDen(exp: int): nat { Pow2(if exp >= 0 then 0 else -exp) }

  /** What Ldexp promises: frac * 2^exp, correctly rounded, with the sign of frac. */
  ghost predicate LdexpCorrect(frac: Word, exp: int, r: Word) {
    && SignBit(r) == SignBit(frac)
    && NearestEven(ScaledNum(frac, exp), ScaledDen(exp), Abs(r))
  }

  /** Ldexp through the parts of its argument: q * 2^(k + exp + 1022), the sum in
      the exponent taken with the wrap-around of int. */
  lemma LdexpParts(frac: Word, exp: int) returns (q: nat, k: int)
    requires Regular(frac)
    ensures Parts(frac, q, k)
    ensures var t := Int64(exp + k); var s := SignBit(frac);
      && (t < -1075 ==> Ldexp(frac, exp) == WithSign(s, 0))
      && (t > 1023 ==> Ldexp(frac, exp) == WithSign(s, INF))
      && (-1075 <= t < -1022 ==> Ldexp(frac, exp) == FMul(TWO_53, WithSign(s, Compose(t + 1075, q))))
      && (-1022 <= t <= 1023 ==> Ldexp(frac, exp) == WithSign(s, Compose(t + 1022, q)))
  {
    hide Pow2, Mag, Shr, Low, And, Or, AndNot, FMul, SetExpo, Normalize, ExpoField, Parts, Int64;
    q, k := NormalizeValue(frac);
    var g := Normalize(frac);
    ExpoFieldValue(g.0);
    Int64Add(exp + g.1, ExpoField(g.0) - 1023);
    var t := Int64(exp + k);
    if -1075 <= t < -1022 {
      SetExpoValue(g.0, t + 53 + 1023);
    } else if -1022 <= t <= 1023 {
      SetExpoValue(g.0, t + 1023);
      TimesOne(WithSign(SignBit(frac), Compose(t + 1022, q)));
    }
  }

  lemma Int64Add(a: int, b: int)
    ensures Int64(Int64(a) + b) == Int64(a + b)
  {
  }

  lemma TimesOne(x: Word)
    requires IsFinite(x)
    ensures FMul(ONE, x) == x
  {
    hide Pow2, Mag, FMul;
    MagOne();
    MulExact(ONE, x, Abs(x));
  }

  /** Both sides of the fraction n / d multiplied by 2^52 are plain: the exact value
      is q * 2^s / 2^u with s - u = exp + k + 1022. */
  lemma ExactRatio(frac: Word, exp: int, q: nat, k: int) returns (s: nat, u: nat)
    requires Parts(frac, q, k)
    ensures s - u == exp + k + 1022
    ensures forall b: nat :: NearestEven(q * Pow2(s), Pow2(u), b) <==> NearestEven(ScaledNum(frac, exp), ScaledDen(exp), b)
  {
    hide Pow2, Mag, NearestEven;
    var p, m := if exp >= 0 then exp else 0, if exp >= 0 then 0 else -exp;
    s, u := k + 1074 + p, 52 + m;
    Pow2Add(k + 1074, p);
    Pow2Add(m, 52);
    MulAssoc(q, Pow2(k + 1074), Pow2(p));
    Swap(Mag(Abs(frac)), Pow2(p), Pow2(52));
    forall b: nat
      ensures NearestEven(q * Pow2(s), Pow2(u), b) <==> NearestEven(ScaledNum(frac, exp), ScaledDen(exp), b)
    {
      NearestScale(ScaledNum(frac, exp), ScaledDen(exp), Pow2(52), b);
    }
  }

  lemma Swap(a: int, b: int, c: int)
    ensures (a * b) * c == (a * c) * b
  {
  }

  /** The same ratio written with other powers of two. */
  lemma NearestShifted(q: nat, s: nat, u: nat, s': nat, u': nat, b: nat)
    requires s - u == s' - u' && s <= s'
    ensures NearestEven(q * Pow2(s), Pow2(u), b) <==> NearestEven(q * Pow2(s'), Pow2(u'), b)
  {
    hide Pow2, NearestEven;
    var c: nat := s' - s;
    Pow2Add(s, c);
    Pow2Add(u, c);
    assert s + c == s' && u + c == u';
    SameRatio(q, Pow2(s), Pow2(u), Pow2(c), b);
  }

  lemma SameRatio(q: nat, p: nat, d: nat, c: nat, b: nat)
    requires c > 0
    ensures NearestEven(q * p, d, b) <==> NearestEven(q * (p * c), d * c, b)
  {
    hide NearestEven;
    MulAssoc(q, p, c);
    NearestScale(q * p, d, c, b);
  }

  lemma RatioTooLarge(q: nat, s: nat, u: nat)
    requires q >= FRAC && s >= u + 2046
    ensures q * Pow2(s) >= Mag(INF) * Pow2(u)
  {
    hide Pow2, Mag;
    Pow2Values();
    MagInfinity();
    Pow2Add(2046, u);
    Pow2Monotone(2046 + u, s);
    MulMono(FRAC, q, Pow2(s));
    MulMono(Pow2(2046 + u), Pow2(s), FRAC);
    MulAssoc(FRAC, Pow2(2046), Pow2(u));
  }

  lemma RatioTooSmall(q: nat, s: nat, u: nat)
    requires q < 2 * FRAC && s + 54 <= u
    ensures 2 * (q * Pow2(s)) < Pow2(u)
  {
    hide Pow2;
    Pow2Values();
    Pow2Add(1, 53);
    Pow2Add(54, s);
    Pow2Monotone(54 + s, u);
    MulStrict(q, 2 * FRAC, Pow2(s));
  }

  lemma MagTwo_53()
    ensures Mag(TWO_53) == Pow2(1021)
  {
    hide Pow2, Mag;
    MagCompose(969, FRAC);
    Pow2Values();
    Pow2Add(52, 969);
  }

  /** Multiplying by 2^-53 rounds a denormal result correctly, once. */
  lemma DenormalProduct(sign: nat, e: nat, q: nat, s: nat, u: nat)
    requires sign <= 1 && e <= 52 && FRAC <= q < 2 * FRAC && s - u == e - 53
    ensures var r := FMul(TWO_53, WithSign(sign, Compose(e, q)));
      SignBit(r) == sign && NearestEven(q * Pow2(s), Pow2(u), Abs(r))
  {
    hide Pow2, Mag, Round, NearestEven;
    var x := WithSign(sign, Compose(e, q));
    MagTwo_53();
    MagCompose(e, q);
    Pow2Add(e, 1021);
    MulAssoc(q, Pow2(e), Pow2(1021));
    var n := q * Pow2(e + 1021);
    assert Mag(TWO_53) * Mag(Abs(x)) == n;
    RoundIsNearest(n, 1074);
    RoundAtMost(n, 1074);
    if s <= e + 1021 {
      NearestShifted(q, s, u, e + 1021, 1074, Round(n, 1074));
    } else {
      NearestShifted(q, e + 1021, 1074, s, u, Round(n, 1074));
    }
  }

  lemma ExactProduct(e: nat, q: nat, s: nat, u: nat)
    requires FRAC <= q < 2 * FRAC && s - u == e && Compose(e, q) <= INF
    ensures NearestEven(q * Pow2(s), Pow2(u), Compose(e, q))
  {
    hide Pow2, Mag, NearestEven;
    MagCompose(e, q);
    Pow2Add(e, u);
    MulAssoc(q, Pow2(e), Pow2(u));
    NearestExact(q * Pow2(s), Pow2(u), Compose(e, q));
  }

  /** ldexp.go line 21: Ldexp is the correctly rounded product exactly when the exponent,
      adjusted by that of the argument, does not leave the range of int. Outside it
      the sum wraps around, and zero and infinity change places. */
  lemma LdexpCorrectIff(frac: Word, exp: int)
    requires Regular(frac) && INT_MIN <= exp <= INT_MAX
    ensures LdexpCorrect(frac, exp, Ldexp(frac, exp)) <==> INT_MIN <= exp + Frexp(frac).1 - 1 <= INT_MAX
  {
    hide Pow2, Mag, NearestEven, Frexp, FMul, Ldexp, ScaledNum, ScaledDen, Parts;
    var q, k := LdexpParts(frac, exp);
    var q', k' := FrexpValue(frac);
    PartsUnique(frac, q, k, q', k');
    PartsBounds(frac, q, k);
    var s, u := ExactRatio(frac, exp, q, k);
    WrapCases(exp + k);
    if exp + k > 1023 {
      RatioTooLarge(q, s, u);
      NearestInfinity(q * Pow2(s), Pow2(u));
    } else if exp + k < -1075 {
      RatioTooSmall(q, s, u);
      NearestZero(q * Pow2(s), Pow2(u));
    } else if exp + k < -1022 {
      DenormalProduct(SignBit(frac), exp + k + 1075, q, s, u);
    } else {
      ExactProduct(exp + k + 1022, q, s, u);
    }
  }

  lemma PartsBounds(x: Word, q: nat, k: int)
    requires Parts(x, q, k)
    ensures FRAC <= q < 2 * FRAC && -1074 <= k <= 1023
  {
  }

  lemma WrapCases(v: int)
    requires INT_MIN - 1074 <= v <= INT_MAX + 1023
    ensures INT_MIN <= v <= INT_MAX ==> Int64(v) == v
    ensures v < INT_MIN ==> Int64(v) > 1023
    ensures v > INT_MAX ==> Int64(v) < -1075
  {
  }

  /** The wrap-around is real: scaling 2 by the largest int gives zero. */
  lemma LdexpWrapExample()
    ensures var two: Word := 0x4000_0000_0000_0000;
      Regular(two) && Ldexp(two, INT_MAX) == 0 && !LdexpCorrect(two, INT_MAX, Ldexp(two, INT_MAX))
  {
    hide Pow2, Mag, NearestEven, Frexp, FMul, Ldexp, LdexpCorrect, Parts;
    var two: Word := 0x4000_0000_0000_0000;
    var q, k := LdexpParts(two, INT_MAX);
    var q', k' := FrexpValue(two);
    PartsUnique(two, q, k, q', k');
    TwoParts(q, k);
    WrapCases(INT_MAX + k);
    LdexpCorrectIff(two, INT_MAX);
  }

  lemma TwoParts(q: nat, k: int)
    requires Parts(0x4000_0000_0000_0000, q, k)
    ensures k == 1
  {
    hide Pow2, Mag;
    MagCompose(1023, FRAC);
    Pow2Values();
    Pow2Add(1023, 52);
    MulAssoc(FRAC, Pow2(1023), Pow2(52));
    assert Parts(0x4000_0000_0000_0000, FRAC, 1);
    PartsUnique(0x4000_0000_0000_0000, q, k, FRAC, 1);
  }

  /** frexp.go lines 12-15 and ldexp.go lines 10-13: zeros, infinities and NaNs are returned as
      they are. */
  lemma SpecialUnchanged(f: Word, exp: int)
    requires !Regular(f)
    ensures Frexp(f) == (f, 0) && Ldexp(f, exp) == f
  {
  }
}
