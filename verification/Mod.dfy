/** Mod and Remainder of package math: exact remainders by scaled subtraction. */
module Mod {
  import opened Words
  import opened Float64
  import opened FloatOps
  import opened Scaling

  // ----- remainders of magnitudes -----

  lemma ModOfSmall(r: nat, y: nat)
    requires r < y
    ensures r % y == r
  {
    DivModUnique(r, y, 0, r);
  }

  /** Subtracting a multiple does not change the remainder. */
  lemma ModOfDifference(r: nat, y: nat, c: nat)
    requires y > 0 && y * c <= r
    ensures (r - y * c) % y == r % y
  {
    var k, m := r / y, r % y;
    assert r == k * y + m by { DivMod(r, y); }
    assert r - y * c == (k - c) * y + m by { assert (k - c) * y == k * y - y * c; }
    DivModUnique(r - y * c, y, k - c, m);
  }

  lemma DivMod(x: nat, d: nat)
    requires d > 0
    ensures x == (x / d) * d + x % d && 0 <= x % d < d && x / d >= 0
  {
    if x / d < 0 {
      MulMono(x / d, -1, d);
    }
  }

  // ----- one round of the loop -----

  /** Lines 41-45: the exponent y is scaled by before it is subtracted from r. */
  function StepExpo(y: Word, r: Word): int {
    (if FLess(Frexp(r).0, Frexp(y).0) then Frexp(r).1 - 1 else Frexp(r).1) - Frexp(y).1
  }

  /** The fractions and exponents give the largest power of two times y that is not
      above r. */
  lemma StepExponent(y: Word, r: Word)
    requires 0 < y < INF && 0 < r < INF && Mag(y) <= Mag(r)
    ensures var k := StepExpo(y, r);
      0 <= k <= 2100 && Mag(y) * Pow2(k) <= Mag(r) < 2 * (Mag(y) * Pow2(k))
  {
    hide Pow2, Mag, Frexp, Parts, FLess;
    var qy, ky := FrexpValue(y);
    var qr, kr := FrexpValue(r);
    PartsBounds(y, qy, ky);
    PartsBounds(r, qr, kr);
    FractionOrder(qr, qy);
    PartsScaled(y, qy, ky);
    PartsScaled(r, qr, kr);
    var k := (if qr < qy then kr - 1 else kr) - ky;
    assert k == StepExpo(y, r);
    StepNonnegative(Mag(y), Mag(r), qy, ky, qr, kr);
    StepBounds(Mag(y), Mag(r), qy, ky, qr, kr, k);
  }

  lemma StepNonnegative(my: nat, mr: nat, qy: nat, ky: int, qr: nat, kr: int)
    requires FRAC <= qy < 2 * FRAC && FRAC <= qr < 2 * FRAC && ky >= -1074 && kr >= -1074
    requires my * Pow2(52) == qy * Pow2(ky + 1074) && mr * Pow2(52) == qr * Pow2(kr + 1074)
    requires my <= mr
    ensures (if qr < qy then kr - 1 else kr) >= ky
  {
    hide Pow2;
    MulMono(my, mr, Pow2(52));
    if kr < ky {
      PartsOrder(qr, kr, qy, ky);
    } else if kr == ky {
      MulCancel(qy, qr, Pow2(ky + 1074));
    }
  }

  lemma FractionOrder(qr: nat, qy: nat)
    requires FRAC <= qr < 2 * FRAC && FRAC <= qy < 2 * FRAC
    ensures FLess(WithSign(0, Compose(1021, qr)), WithSign(0, Compose(1021, qy))) <==> qr < qy
  {
    hide Mag;
    MagMonotone(Compose(1021, qr), Compose(1021, qy));
    MagMonotone(Compose(1021, qy), Compose(1021, qr));
  }

  lemma PartsScaled(x: Word, q: nat, k: int)
    requires Parts(x, q, k) && x < SIGN
    ensures Mag(x) * Pow2(52) == q * Pow2(k + 1074)
  {
    hide Pow2, Mag;
  }

  lemma StepBounds(my: nat, mr: nat, qy: nat, ky: int, qr: nat, kr: int, k: nat)
    requires FRAC <= qy < 2 * FRAC && FRAC <= qr < 2 * FRAC && ky >= -1074 && kr >= -1074
    requires my * Pow2(52) == qy * Pow2(ky + 1074) && mr * Pow2(52) == qr * Pow2(kr + 1074)
    requires k == (if qr < qy then kr - 1 else kr) - ky
    ensures my * Pow2(k) <= mr < 2 * (my * Pow2(k))
  {
    hide Pow2;
    var c, h := Pow2(52), Pow2(ky + 1074 + k);
    Pow2Add(ky + 1074, k);
    MulAssoc(qy, Pow2(ky + 1074), Pow2(k));
    Swap(my, Pow2(k), c);
    assert (my * Pow2(k)) * c == qy * h;
    if qr < qy {
      Pow2Add(1, ky + 1074 + k);
      Pow2Small();
      Regroup(qr, h);
      MulMono(qy, 2 * qr, h);
      MulStrict(qr, qy, h);
      MulAssoc(2, qr, h);
    } else {
      MulMono(qy, qr, h);
      MulStrict(qr, 2 * qy, h);
      MulAssoc(2, qy, h);
    }
    MulCancel(my * Pow2(k), mr, c);
    MulAssoc(2, my * Pow2(k), c);
    MulCancel(mr, 2 * (my * Pow2(k)), c);
  }

  /** Line 45: scaling y up to something not above a finite number is exact. */
  lemma LdexpExact(y: Word, k: nat)
    requires 0 < y < INF && k <= 2100 && Mag(y) * Pow2(k) < Mag(INF)
    ensures Ldexp(y, k) < INF && Mag(Ldexp(y, k)) == Mag(y) * Pow2(k)
  {
    hide Pow2, Mag, Ldexp, Frexp, NearestEven, Parts;
    var q0, k0 := FrexpValue(y);
    PartsBounds(y, q0, k0);
    LdexpCorrectIff(y, k);
    var e, q := MagParts(y);
    Pow2Add(e, k);
    MulAssoc(q, Pow2(e), Pow2(k));
    var a := ScaledRepresentable(q, e + k);
    UnitDenominator(k);
    NearestExact(Mag(y) * Pow2(k), 1, a);
    NearestUnique(Mag(y) * Pow2(k), 1, a, Abs(Ldexp(y, k)));
  }

  lemma UnitDenominator(k: nat)
    ensures ScaledDen(k) == 1
  {
  }

  /** One round: an exact subtraction that keeps the remainder. */
  lemma LoopStep(y: Word, r: Word)
    requires 0 < y < INF && 0 < r < INF && Mag(y) <= Mag(r)
    ensures var r' := FSub(r, Ldexp(y, StepExpo(y, r)));
      && r' < INF && Mag(r') < Mag(r)
      && Mag(y) > 0 && Mag(r') % Mag(y) == Mag(r) % Mag(y)
  {
    hide Pow2, Mag, Ldexp, StepExpo, FSub;
    StepExponent(y, r);
    var k := StepExpo(y, r);
    MagMonotone(r, INF);
    LdexpExact(y, k);
    var t := Ldexp(y, k);
    MagMonotone(r, t);
    var c := CloseDifference(r, t);
    SubExact(r, t, c);
    PositiveVal(r, t, FSub(r, t), c);
    MagMonotone(0, y);
    ZeroMag();
    MulMono(1, Pow2(k), Mag(y));
    ModOfDifference(Mag(r), Mag(y), Pow2(k));
  }

  lemma PositiveVal(r: Word, t: Word, d: Word, c: nat)
    requires r < INF && t < INF && Val(d) == Val(r) - Val(t) && Abs(d) == c < INF && Mag(t) <= Mag(r)
    requires Val(r) == Val(t) && SignBit(r) == 0 ==> d == 0
    ensures d < INF && Mag(d) == Mag(r) - Mag(t)
  {
    hide Mag;
    ValOf(d);
  }

  // ----- Mod -----

  /** The specification: NaN where there is no remainder, else the remainder of the
      magnitudes with the sign of x. */
  function ModSpec(x: Word, y: Word): Word {
    if IsZero(y) || IsInf(x) || IsNaN(x) || IsNaN(y) then NAN
    else
      MagMonotone(0, Abs(y));
      ZeroMag();
      RoundAtMost(Mag(Abs(x)) % Mag(Abs(y)), 0);
      WithSign(SignBit(x), Round(Mag(Abs(x)) % Mag(Abs(y)), 0))
  }

  /** Line 28: mod */
  method Mod(x: Word, y0: Word) returns (r: Word)
    ensures r == ModSpec(x, y0)
  {
    if IsZero(y0) || IsInf(x) || IsNaN(x) || IsNaN(y0) {
      return NAN;
    }
    hide Pow2, Mag, ModSpec;
    ModMagnitude(x, y0);
    var y := Abs(y0);
    ValOf(x);
    r := x;
    if FLess(x, 0) {
      r := FNeg(x);
    }
    ZeroMag();
    ValOf(r);
    r := Reduce(r, y);
    MagInjective(Abs(r), Abs(ModSpec(x, y0)));
    if FLess(x, 0) {
      r := FNeg(r);
    }
  }

  /** Lines 34-46: subtracts scaled copies of y until r is below it. */
  method Reduce(r0: Word, y: Word) returns (r: Word)
    requires IsFinite(r0) && Val(r0) >= 0 && 0 < y <= INF
    ensures IsFinite(r) && SignBit(r) == SignBit(r0)
    ensures Mag(y) > 0 && Mag(Abs(r)) == Mag(Abs(r0)) % Mag(y)
  {
    hide Pow2, Mag, Ldexp, Frexp, FSub, Val, FLess;
    var yfr, yexp := Frexp(y).0, Frexp(y).1;
    r := r0;
    ZeroMag();
    MagMonotone(0, y);
    ValOf(r);
    ValOf(y);
    while FLessEq(y, r)
      invariant IsFinite(r) && Val(r) == Mag(Abs(r))
      invariant Mag(Abs(r)) % Mag(y) == Mag(Abs(r0)) % Mag(y)
      invariant SignBit(r) == SignBit(r0)
      decreases Mag(Abs(r))
    {
      ReduceStep(r, y);
      var rfr, rexp := Frexp(r).0, Frexp(r).1;
      if FLess(rfr, yfr) {
        rexp := rexp - 1;
      }
      r := FSub(r, Ldexp(y, rexp - yexp));
      ValOf(r);
    }
    ModOfSmall(Mag(Abs(r)), Mag(y));
  }

  lemma ReduceStep(r: Word, y: Word)
    requires IsFinite(r) && Val(r) == Mag(Abs(r)) && 0 < y <= INF && FLessEq(y, r)
    ensures SignBit(r) == 0 && y < INF
    ensures var r' := FSub(r, Ldexp(y, StepExpo(y, r)));
      && r' < INF && Mag(r') < Mag(r)
      && Mag(y) > 0 && Mag(r') % Mag(y) == Mag(r) % Mag(y)
  {
    hide Pow2, Mag, Ldexp, FSub, StepExpo;
    MagMonotone(0, y);
    ZeroMag();
    MagMonotone(Abs(r), INF);
    LoopStep(y, r);
  }

  lemma RoundRepresentable(a: nat)
    requires a <= INF
    ensures Round(Mag(a), 0) == a
  {
    RoundExact(Mag(a), 0, a);
  }

  /** Quotient rounded towards zero. */
  function TruncQuotient(a: int, b: int): int
    requires b != 0
  {
    if (a < 0) == (b < 0) then Magnitude(a) / Magnitude(b) else -(Magnitude(a) / Magnitude(b))
  }

  lemma ModMagnitude(x: Word, y: Word)
    requires IsFinite(x) && !IsNaN(y) && !IsZero(y)
    ensures var r := ModSpec(x, y);
      && IsFinite(r) && SignBit(r) == SignBit(x) && Mag(Abs(y)) > 0
      && Mag(Abs(r)) == Mag(Abs(x)) % Mag(Abs(y))
  {
    hide Pow2, Mag, Round;
    var c := RemainderRepresentable(Abs(x), Abs(y));
    RoundRepresentable(c);
  }

  /** Lines 28-51: the result is exactly x - trunc(x / y) * y, smaller than y in
      magnitude and with the sign of x, a zero result included. */
  lemma ModExact(x: Word, y: Word)
    requires IsFinite(x) && IsFinite(y) && !IsZero(y)
    ensures var r := ModSpec(x, y);
      && IsFinite(r) && SignBit(r) == SignBit(x)
      && Val(y) != 0 && Val(r) == Val(x) - TruncQuotient(Val(x), Val(y)) * Val(y)
      && Magnitude(Val(r)) < Magnitude(Val(y))
  {
    hide Pow2, Mag, ModSpec;
    ValOf(x);
    ValOf(y);
    ModMagnitude(x, y);
    ValOf(ModSpec(x, y));
    DivMod(Mag(Abs(x)), Mag(Abs(y)));
    SignedProducts(Mag(Abs(x)) / Mag(Abs(y)), Mag(Abs(y)));
  }

  lemma SignedProducts(q: int, y: int)
    ensures (0 - q) * y == 0 - q * y && q * (0 - y) == 0 - q * y && (0 - q) * (0 - y) == q * y
    ensures (-q) * y == 0 - q * y && (-q) * (-y) == q * y
  {
  }

  // ----- Remainder -----

  const TINY: Word := 0x0020_0000_0000_0000
  const HALF_MAX: Word := 0x7FDF_FFFF_FFFF_FFFF
  const HALF: Word := 0x3FE0_0000_0000_0000

  /** remainder.go lines 74-80: the branch for y < Tiny, doubling x. */
  function SubtractSmall(x: Word, y: Word): Word {
    if FLess(y, FAdd(x, x)) then
      var d := FSub(x, y);
      if FLessEq(y, FAdd(d, d)) then FSub(d, y) else d
    else x
  }

  /** remainder.go lines 82-88: the branch that halves y. */
  function SubtractLarge(x: Word, y: Word): Word {
    var yHalf := FMul(HALF, y);
    if FLess(yHalf, x) then
      var d := FSub(x, y);
      if FLessEq(yHalf, d) then FSub(d, y) else d
    else x
  }

  /** remainder.go line 44: remainder */
  function Remainder(x0: Word, y0: Word): Word {
    if IsNaN(x0) || IsNaN(y0) || IsInf(x0) || IsZero(y0) then NAN
    else if IsInf(y0) then x0
    else
      var sign := FLess(x0, 0);
      var x := if sign then FNeg(x0) else x0;
      var y := if FLess(y0, 0) then FNeg(y0) else y0;
      if Val(x) == Val(y) then (if sign then SIGN else 0)
      else if sign then FNeg(Subtracted(Reduced(x, y), y))
      else Subtracted(Reduced(x, y), y)
  }

  /** remainder.go lines 71-73 */
  function Reduced(x: Word, y: Word): Word {
    if FLessEq(y, HALF_MAX) then ModSpec(x, FAdd(y, y)) else x
  }

  /** remainder.go lines 74-89 */
  function Subtracted(x: Word, y: Word): Word {
    if FLess(y, TINY) then SubtractSmall(x, y) else SubtractLarge(x, y)
  }

  /** r is x - n * y with n the integer nearest to x / y, the even one of two. */
  ghost predicate IsRemainder(x: int, y: int, r: int, n: int) {
    && r == x - n * y
    && 2 * Magnitude(r) <= Magnitude(y)
    && (2 * Magnitude(r) == Magnitude(y) ==> n % 2 == 0)
  }

  // ----- its steps are exact -----

  /** Subtracting numbers within a factor of two of each other. */
  lemma SubClose(x: Word, y: Word)
    requires x < INF && 0 < y < INF
    requires Mag(y) <= 2 * Mag(x) && Mag(x) <= 2 * Mag(y)
    ensures IsFinite(FSub(x, y)) && Val(FSub(x, y)) == Mag(x) - Mag(y)
    ensures Mag(x) == Mag(y) ==> FSub(x, y) == 0
    ensures Mag(x) > Mag(y) ==> SignBit(FSub(x, y)) == 0
  {
    hide Mag, FSub;
    MagMonotone(x, y);
    MagMonotone(y, x);
    if y <= x {
      var c := CloseDifference(x, y);
      SubExact(x, y, c);
    } else {
      var c := CloseDifference(y, x);
      SubExact(x, y, c);
    }
  }

  lemma DoubleExact(x: Word)
    requires IsFinite(x) && 2 * Mag(Abs(x)) < Mag(INF)
    ensures Val(FAdd(x, x)) == 2 * Val(x)
    ensures Abs(FAdd(x, x)) < INF && (Val(x) > 0 ==> SignBit(FAdd(x, x)) == 0)
  {
    hide Mag, Pow2, FAdd;
    var e, q := MagParts(Abs(x));
    Regroup(q, Pow2(e));
    assert Pow2(e + 1) == 2 * Pow2(e) by { Pow2Add(1, e); Pow2Small(); }
    var a := ScaledRepresentable(q, e + 1);
    ValOf(x);
    AddExact(x, x, a);
  }

  /** Half of a number with a normal half. */
  lemma HalfExact(y: Word)
    requires TINY <= y < INF
    ensures 2 * Val(FMul(HALF, y)) == Mag(y)
  {
    hide Pow2, FMul, Mag;
    var h := y - FRAC;
    DoublingMag(y);
    MagHalf();
    HalfProduct(Mag(h), Pow2(1073));
    MulExact(HALF, y, h);
    ValOf(FMul(HALF, y));
  }

  lemma DoublingMag(y: nat)
    requires y >= 2 * FRAC
    ensures Mag(y) == 2 * Mag(y - FRAC)
  {
  }

  lemma MagHalf()
    ensures Mag(HALF) == Pow2(1073) && Pow2(1074) == 2 * Pow2(1073)
  {
    hide Pow2, Mag;
    MagCompose(1021, FRAC);
    Pow2Values();
    Pow2Add(52, 1021);
    Pow2Add(1, 1073);
  }

  lemma HalfProduct(h: int, p: int)
    ensures p * (2 * h) == h * (2 * p)
  {
  }

  /** What one of the two branches leaves of x < 2y: j copies of y are taken off. */
  ghost predicate Halved(x: Word, y: Word, r: Word, j: int) {
    && 0 <= j <= 2
    && IsFinite(r)
    && IsRemainder(Val(x), Val(y), Val(r), j)
    && (Val(r) == 0 ==> r == x || (r == 0 && Val(x) > 0))
  }

  /** Both branches make the same comparisons, exactly. */
  lemma HalvedSteps(x: Word, y: Word, r: Word) returns (j: int)
    requires IsFinite(x) && 0 <= Val(x) < 2 * Mag(y) && 0 < y < INF
    requires r == (if 2 * Val(x) > Mag(y) then
                    (if 2 * Val(FSub(x, y)) >= Mag(y) then FSub(FSub(x, y), y) else FSub(x, y))
                  else x)
    ensures Halved(x, y, r, j)
  {
    hide Mag, FSub;
    ValOf(x);
    ValOf(y);
    if 2 * Val(x) > Mag(y) {
      SubClose(x, y);
      var d := FSub(x, y);
      ValOf(d);
      if 2 * Val(d) >= Mag(y) {
        SubClose(d, y);
        j := 2;
      } else {
        j := 1;
      }
    } else {
      j := 0;
    }
  }

  lemma BranchCorrect(x: Word, y: Word) returns (j: int)
    requires IsFinite(x) && 0 <= Val(x) < 2 * Mag(y) && 0 < y < INF
    ensures Halved(x, y, Subtracted(x, y), j)
  {
    hide Mag, FSub, FAdd, FMul;
    ValOf(x);
    ValOf(y);
    MagMonotone(y, TINY);
    MagMonotone(TINY, y);
    var r := Subtracted(x, y);
    if FLess(y, TINY) {
      TinyRoom();
      DoubleExact(x);
      if 2 * Val(x) > Mag(y) {
        SubClose(x, y);
        ValOf(FSub(x, y));
        DoubleExact(FSub(x, y));
      }
    } else {
      HalfExact(y);
    }
    j := HalvedSteps(x, y, r);
  }

  lemma TinyRoom()
    ensures 4 * Mag(TINY) < Mag(INF)
  {
    assert Mag(TINY) == 2 * FRAC;
    assert Mag(Compose(5, 0)) == 16 * FRAC;
    hide Mag;
    MagMonotone(Compose(5, 0), INF);
  }

  /** Reducing x modulo 2y first, where 2y is finite; where it is not, x is below it
      anyway. */
  lemma ReducedValue(x: Word, y: Word) returns (k: nat)
    requires IsFinite(x) && Val(x) >= 0 && 0 < y < INF
    ensures var m := Reduced(x, y);
      && IsFinite(m) && 0 <= Val(m) < 2 * Mag(y)
      && Val(m) == Val(x) - (2 * k) * Mag(y)
      && (Val(m) == 0 ==> SignBit(m) == SignBit(x))
  {
    hide Mag, FAdd, ModSpec;
    HalfMaxRoom();
    ValOf(x);
    ValOf(y);
    MagMonotone(HALF_MAX, y);
    MagMonotone(y, HALF_MAX);
    MagMonotone(Abs(x), INF - 1);
    MagMonotone(INF - 1, INF);
    if FLessEq(y, HALF_MAX) {
      k := ModTwice(x, y);
    } else {
      k := 0;
    }
  }

  lemma ModTwice(x: Word, y: Word) returns (k: nat)
    requires IsFinite(x) && Val(x) >= 0 && 0 < y < INF && 2 * Mag(y) < Mag(INF)
    ensures var m := ModSpec(x, FAdd(y, y));
      && IsFinite(m) && 0 <= Val(m) < 2 * Mag(y)
      && Val(m) == Val(x) - (2 * k) * Mag(y)
      && SignBit(m) == SignBit(x)
  {
    hide Mag, FAdd, ModSpec;
    MagMonotone(0, y);
    ZeroMag();
    ValOf(x);
    ValOf(y);
    DoubleExact(y);
    var t := FAdd(y, y);
    ValOf(t);
    ModMagnitude(x, t);
    ValOf(ModSpec(x, t));
    k := QuotientOfTwice(Mag(Abs(x)), Mag(y));
  }

  lemma QuotientOfTwice(x: nat, y: nat) returns (k: nat)
    requires y > 0
    ensures x % (2 * y) == x - (2 * k) * y && 0 <= x % (2 * y) < 2 * y
  {
    k := x / (2 * y);
    DivMod(x, 2 * y);
    TwiceProduct(k, y);
  }

  lemma TwiceProduct(k: int, y: int)
    ensures k * (2 * y) == (2 * k) * y
  {
  }

  lemma HalfMaxRoom()
    ensures Mag(INF - 1) == 2 * Mag(HALF_MAX)
  {
    hide Pow2;
    assert HALF_MAX + FRAC == INF - 1;
  }

  /** Undoing the signs: the quotient takes the sign of x / y. */
  lemma SignedRemainder(x: int, y: int, r: int, n: int)
    requires y != 0 && IsRemainder(Magnitude(x), Magnitude(y), r, n)
    ensures IsRemainder(x, y, if x < 0 then 0 - r else r, if (x < 0) == (y < 0) then n else 0 - n)
  {
    SignedProducts(n, y);
  }

  lemma RemainderOfPositive(x: Word, y: Word) returns (n: int)
    requires IsFinite(x) && Val(x) >= 0 && 0 < y < INF
    ensures var r := Subtracted(Reduced(x, y), y);
      && IsFinite(r) && IsRemainder(Val(x), Mag(y), Val(r), n)
      && (Val(r) == 0 ==> SignBit(r) == SignBit(x))
  {
    hide Mag, IsRemainder, Reduced, Subtracted;
    var k := ReducedValue(x, y);
    var m := Reduced(x, y);
    var j := BranchCorrect(m, y);
    var r := Subtracted(m, y);
    ValOf(m);
    ValOf(x);
    ValOf(y);
    n := 2 * k + j;
    AddQuotients(Val(x), Mag(y), Val(m), Val(r), k, j);
  }

  /** For finite x and finite nonzero y the result is exactly x - n * y, n the integer
      nearest to x / y, ties to even; a zero result has the sign of x. */
  lemma RemainderCorrect(x: Word, y: Word) returns (n: int)
    requires IsFinite(x) && IsFinite(y) && !IsZero(y)
    ensures IsFinite(Remainder(x, y))
    ensures IsRemainder(Val(x), Val(y), Val(Remainder(x, y)), n)
    ensures Val(Remainder(x, y)) == 0 ==> SignBit(Remainder(x, y)) == SignBit(x)
  {
    hide Mag, Reduced, Subtracted, IsRemainder;
    var a, b := if FLess(x, 0) then FNeg(x) else x, if FLess(y, 0) then FNeg(y) else y;
    ZeroMag();
    ValOf(x);
    ValOf(y);
    ValOf(a);
    ValOf(b);
    var r: Word;
    if Val(a) == Val(b) {
      r, n := 0, 1;
      OneStep(Val(a));
    } else {
      n := RemainderOfPositive(a, b);
      r := Subtracted(Reduced(a, b), b);
    }
    ValOf(r);
    SignedRemainder(Val(x), Val(y), Val(r), n);
    n := if (Val(x) < 0) == (Val(y) < 0) then n else 0 - n;
  }

  lemma OneStep(y: int)
    ensures y > 0 ==> IsRemainder(y, y, 0, 1)
  {
  }

  lemma AddQuotients(x: int, y: nat, m: int, r: int, k: nat, j: int)
    requires m == x - (2 * k) * y && IsRemainder(m, y, r, j)
    ensures IsRemainder(x, y, r, 2 * k + j)
  {
    assert (2 * k + j) * y == (2 * k) * y + j * y;
  }

  /** The integer nearest to x / y, ties to even, is unique, and so is the remainder. */
  lemma RemainderUnique(x: int, y: int, r: int, n: int, r': int, n': int)
    requires y != 0 && IsRemainder(x, y, r, n) && IsRemainder(x, y, r', n')
    ensures n == n' && r == r'
  {
    assert (n' - n) * y == r - r';
    if n' - n >= 2 || n - n' >= 2 {
      MulBound(n' - n, y, 2);
    } else if n != n' {
      MulBound(n' - n, y, 1);
    }
  }

  lemma MulBound(a: int, y: int, k: nat)
    requires Magnitude(a) >= k
    ensures Magnitude(a * y) >= k * Magnitude(y)
  {
    MulMono(k, Magnitude(a), Magnitude(y));
    SignedProducts(a, y);
  }

  // ----- special cases -----

  /** mod.go lines 15-20: no remainder of an infinity, by zero or with a NaN; and a finite number
      is its own remainder by an infinity. */
  lemma ModSpecial(x: Word, y: Word)
    ensures IsNaN(ModSpec(x, y)) <==> IsNaN(x) || IsNaN(y) || IsInf(x) || IsZero(y)
    ensures IsFinite(x) && IsInf(y) ==> ModSpec(x, y) == x
  {
    hide Pow2, Mag, Round;
    if IsZero(y) || IsInf(x) || IsNaN(x) || IsNaN(y) {
    } else {
      MagMonotone(0, Abs(y));
      ZeroMag();
      DivMod(Mag(Abs(x)), Mag(Abs(y)));
      if IsInf(y) {
        MagMonotone(Abs(x), INF);
        ModOfSmall(Mag(Abs(x)), Mag(INF));
        OneUnit();
        RoundExact(Mag(Abs(x)), 0, Abs(x));
      } else {
        ModMagnitude(x, y);
      }
    }
  }

  lemma OneUnit()
    ensures Pow2(0) == 1
  {
  }

  /** remainder.go lines 31-36: the same for Remainder. */
  lemma RemainderSpecial(x: Word, y: Word)
    ensures IsNaN(x) || IsNaN(y) || IsInf(x) || IsZero(y) ==> IsNaN(Remainder(x, y))
    ensures IsFinite(x) && IsInf(y) ==> Remainder(x, y) == x
  {
    hide Reduced, Subtracted;
  }
}
