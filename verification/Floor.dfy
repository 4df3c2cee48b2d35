/** Round and RoundToEven of package math, which round to an integer by adding to
    the raw bits and clearing the fraction. */
module Floor {
  import opened Words
  import opened Float64

  // ----- nearest integers -----

  /** The magnitude of the integer k in units of 2^-1074. */
  ghost function Whole(k: nat): nat { k * Pow2(1074) }

  /** No integer is nearer to the magnitude m than k. */
  ghost predicate NearestWhole(m: nat, k: nat) {
    forall j: nat :: AbsDiff(m, Whole(k)) <= AbsDiff(m, Whole(j))
  }

  ghost predicate TiesToEven(m: nat, k: nat) {
    forall j: nat | j != k && AbsDiff(m, Whole(j)) == AbsDiff(m, Whole(k)) :: k % 2 == 0
  }

  ghost predicate TiesAway(m: nat, k: nat) {
    forall j: nat | j != k && AbsDiff(m, Whole(j)) == AbsDiff(m, Whole(k)) :: Whole(k) > m
  }

  /** Being within half a unit is enough. */
  lemma WithinHalf(m: nat, k: nat)
    requires 2 * AbsDiff(m, Whole(k)) <= Pow2(1074)
    ensures NearestWhole(m, k)
    ensures 2 * AbsDiff(m, Whole(k)) < Pow2(1074) || k % 2 == 0 ==> TiesToEven(m, k)
    ensures 2 * AbsDiff(m, Whole(k)) < Pow2(1074) || Whole(k) > m ==> TiesAway(m, k)
  {
    forall j: nat
      ensures AbsDiff(m, Whole(k)) <= AbsDiff(m, Whole(j))
      ensures j != k && AbsDiff(m, Whole(j)) == AbsDiff(m, Whole(k)) ==> 2 * AbsDiff(m, Whole(k)) == Pow2(1074)
    {
      WholeApart(j, k);
      WholeApart(k, j);
    }
  }

  lemma WholeApart(j: nat, k: nat)
    ensures j < k ==> Whole(j) + Pow2(1074) <= Whole(k)
  {
    hide Pow2;
    if j < k {
      MulMono(j + 1, k, Pow2(1074));
      MulSucc(j, Pow2(1074));
    }
  }

  /** r is the integer nearest to x, with the sign of x; of two nearest ones it is
      the even one. */
  ghost predicate IsRoundToEven(x: Word, r: Word) {
    && SignBit(r) == SignBit(x)
    && exists k: nat :: Mag(Abs(r)) == Whole(k) && NearestWhole(Mag(Abs(x)), k) && TiesToEven(Mag(Abs(x)), k)
  }

  /** r is the integer nearest to x, with the sign of x; of two nearest ones it is
      the one away from zero. */
  ghost predicate IsRoundAway(x: Word, r: Word) {
    && SignBit(r) == SignBit(x)
    && exists k: nat :: Mag(Abs(r)) == Whole(k) && NearestWhole(Mag(Abs(x)), k) && TiesAway(Mag(Abs(x)), k)
  }

  // ----- the code -----

  const HALF: Word := 0x8_0000_0000_0000  // 1 << (shift - 1)

  /** Line 79: Round */
  function Round(x: Word): Word {
    var e := ExpoField(x);
    if e < 1023 then
      var s := AndWord(x, SIGN);
      if e == 1022 then OrWord(s, ONE) else s
    else if e < 1023 + 52 then
      AndNotWord(Plus(x, ShrWord(HALF, e - 1023)), Shr(FRAC - 1, e - 1023))
    else x
  }

  /** What line 136 adds before shifting: 2^51 if the integer part is odd, one less
      if it is even. */
  function HalfOrLess(x: Word, d: nat): Word
    requires d <= 1024
  {
    AndAtMost(Shr(x, CountSub(52, d)), 1);
    HALF - 1 + And(Shr(x, CountSub(52, d)), 1)
  }

  /** Line 116: RoundToEven */
  function RoundToEven(x: Word): Word {
    var e := ExpoField(x);
    AndAtMost(Shr(x, 52), 2047);
    if e >= 1023 then
      AndNotWord(Plus(x, ShrWord(HalfOrLess(x, e - 1023), e - 1023)), Shr(FRAC - 1, e - 1023))
    else if e == 1022 && And(x, FRAC - 1) != 0 then OrWord(AndWord(x, SIGN), ONE)
    else AndWord(x, SIGN)
  }

  // ----- the bit patterns involved -----

  lemma FieldValues(x: Word)
    ensures ExpoField(x) == Abs(x) / 0x10_0000_0000_0000
    ensures And(x, FRAC - 1) == Abs(x) % 0x10_0000_0000_0000
    ensures And(x, SIGN) == WithSign(SignBit(x), 0)
    ensures Or(And(x, SIGN), ONE) == WithSign(SignBit(x), ONE)
  {
    hide Pow2, Shr, Low, And, Or;
    Pow2Values();
    Fields(x);
    ExpoFieldValue(x);
    AndMask(x, 52);
    AndBit(x, 63);
    SplitUnique(WithSign(SignBit(x), 0), 63, SignBit(x), 0);
    OrDisjoint(WithSign(SignBit(x), 0), ONE, 63);
  }

  /** Shifting 2^51 and 2^52 - 1 right by d. */
  lemma ShiftedConstants(d: nat)
    requires d <= 51
    ensures Shr(HALF, d) == Pow2(51 - d)
    ensures Shr(HALF - 1, d) == Pow2(51 - d) - 1
    ensures Shr(FRAC - 1, d) == Pow2(52 - d) - 1
  {
    hide Pow2, Shr, Low;
    Pow2Values();
    assert Pow2(51) == HALF by { Pow2Add(51, 1); }
    Pow2Add(51 - d, d);
    Pow2Add(52 - d, d);
    SplitUnique(HALF, d, Pow2(51 - d), 0);
    MulSucc(Pow2(51 - d) - 1, Pow2(d));
    SplitUnique(HALF - 1, d, Pow2(51 - d) - 1, Pow2(d) - 1);
    MulSucc(Pow2(52 - d) - 1, Pow2(d));
    SplitUnique(FRAC - 1, d, Pow2(52 - d) - 1, Pow2(d) - 1);
  }

  /** Bits above position 52 do not disturb the low s bits. */
  lemma LowPart(c: nat, y: nat, s: nat)
    requires s <= 52
    ensures Low(Compose(c, y), s) == Low(y, s)
    ensures Shr(Compose(c, y), s) == c * Pow2(52 - s) + Shr(y, s)
  {
    hide Pow2, Shr, Low;
    Pow2Values();
    Split(y, s);
    Pow2Add(52 - s, s);
    Distribute(c, Pow2(52 - s), Shr(y, s), Pow2(s));
    SplitUnique(Compose(c, y), s, c * Pow2(52 - s) + Shr(y, s), Low(y, s));
  }

  // ----- adding and clearing -----

  /** Line 104: adding h and clearing the fraction bits leaves the integer part of
      the sum, with a carry into the exponent where one occurs. */
  lemma AddAndClear(x: Word, d: nat, q: nat, h: Word, r: Word)
    requires d <= 51 && FRAC <= q < 2 * FRAC && Abs(x) == Compose(d + 1022, q)
    requires h < Pow2(52 - d) && r == AndNotWord(Plus(x, h), Pow2(52 - d) - 1)
    ensures var k := Shr(q + h, 52 - d);
      && SignBit(r) == SignBit(x)
      && Mag(Abs(r)) == Whole(k)
      && k * Pow2(52 - d) <= q + h < k * Pow2(52 - d) + Pow2(52 - d)
  {
    hide Pow2, Shr, Low, Mag, AndNot;
    var s := 52 - d;
    var c := SignBit(x) * 2048 + d + 1022;
    var k := Shr(q + h, s);
    Pow2Values();
    Pow2Monotone(s, 52);
    assert Plus(x, h) == Compose(c, q + h);
    AndNotMask(Compose(c, q + h), s);
    LowPart(c, q + h, s);
    Split(q + h, s);
    CarryLimit(q, h, d);
    assert r == Compose(c, k * Pow2(s));
    MagCompose(d + 1022, k * Pow2(s));
    Pow2Add(s, d + 1022);
    MulAssoc(k, Pow2(s), Pow2(d + 1022));
  }

  lemma CarryLimit(q: nat, h: nat, d: nat)
    requires d <= 51 && FRAC <= q < 2 * FRAC && h < Pow2(52 - d)
    ensures FRAC <= Shr(q + h, 52 - d) * Pow2(52 - d) <= 2 * FRAC
  {
    hide Pow2, Shr, Low;
    var s, k := 52 - d, Shr(q + h, 52 - d);
    Pow2Values();
    Pow2Add(d + 1, s);
    Pow2Add(d, s);
    MulSucc(Pow2(d + 1), Pow2(s));
    ShrLess(q + h, s, Pow2(d + 1) + 1);
    ShrAtLeast(q + h, s, Pow2(d));
    MulMono(k, Pow2(d + 1), Pow2(s));
    MulMono(Pow2(d), k, Pow2(s));
  }

  /** Distances between significands scale to distances between magnitudes. */
  lemma Scaled(d: nat, q: nat, k: nat)
    requires d <= 51
    ensures AbsDiff(q * Pow2(d + 1022), Whole(k)) == AbsDiff(q, k * Pow2(52 - d)) * Pow2(d + 1022)
    ensures Pow2(1074) == Pow2(52 - d) * Pow2(d + 1022)
    ensures q < k * Pow2(52 - d) ==> Whole(k) > q * Pow2(d + 1022)
  {
    hide Pow2;
    var p, w := Pow2(d + 1022), k * Pow2(52 - d);
    Pow2Add(52 - d, d + 1022);
    MulAssoc(k, Pow2(52 - d), p);
    MulCancel(q, w, p);
    assert (q - w) * p == q * p - w * p;
    assert (w - q) * p == w * p - q * p;
  }

  lemma SignificandWithinHalf(d: nat, q: nat, k: nat)
    requires d <= 51 && 2 * AbsDiff(q, k * Pow2(52 - d)) <= Pow2(52 - d)
    ensures NearestWhole(q * Pow2(d + 1022), k)
    ensures 2 * AbsDiff(q, k * Pow2(52 - d)) < Pow2(52 - d) || k % 2 == 0 ==> TiesToEven(q * Pow2(d + 1022), k)
    ensures 2 * AbsDiff(q, k * Pow2(52 - d)) < Pow2(52 - d) || k * Pow2(52 - d) > q ==> TiesAway(q * Pow2(d + 1022), k)
  {
    hide Pow2, NearestWhole, TiesAway, TiesToEven, Whole, AbsDiff;
    var p, dq := Pow2(d + 1022), AbsDiff(q, k * Pow2(52 - d));
    Scaled(d, q, k);
    MulCancel(2 * dq, Pow2(52 - d), p);
    MulAssoc(2, dq, p);
    WithinHalf(q * p, k);
  }

  // ----- the three ranges of exponents -----

  lemma SmallMagnitude(a: nat)
    requires a < ONE
    ensures Mag(a) < Pow2(1074)
    ensures a < Compose(1022, 0) ==> 2 * Mag(a) < Pow2(1074)
    ensures a == Compose(1022, 0) ==> 2 * Mag(a) == Pow2(1074)
    ensures a > Compose(1022, 0) ==> 2 * Mag(a) > Pow2(1074)
  {
    hide Pow2, Mag;
    MagOne();
    MagMonotone(a, ONE);
    MagCompose(1021, FRAC);
    Pow2Values();
    Pow2Add(52, 1021);
    Pow2Add(1, 1073);
    MagMonotone(a, Compose(1022, 0));
    MagMonotone(Compose(1022, 0), a);
  }

  /** Below one the answer is 0 or 1. */
  lemma BelowOne(x: Word)
    requires Abs(x) < ONE
    ensures IsRoundAway(x, Round(x)) && IsRoundToEven(x, RoundToEven(x))
  {
    hide Pow2, Mag, Shr, And, Or;
    var a := Abs(x);
    FieldValues(x);
    SmallMagnitude(a);
    MagOne();
    ZeroMag();
    assert Whole(0) == 0 && Whole(1) == Pow2(1074);
    if 2 * Mag(a) <= Pow2(1074) { WithinHalf(Mag(a), 0); }
    if 2 * Mag(a) >= Pow2(1074) { WithinHalf(Mag(a), 1); }
  }

  /** The significand of a number at least one but below 2^52. */
  lemma MiddleParts(x: Word) returns (d: nat, q: nat)
    requires ONE <= Abs(x) < Compose(1075, 0)
    ensures d <= 51 && FRAC <= q < 2 * FRAC && Abs(x) == Compose(d + 1022, q)
    ensures Mag(Abs(x)) == q * Pow2(d + 1022)
    ensures ExpoField(x) == d + 1023
  {
    hide Pow2, Mag, And, Shr;
    var a := Abs(x);
    FieldValues(x);
    d := a / 0x10_0000_0000_0000 - 1023;
    q := FRAC + a % 0x10_0000_0000_0000;
    MagCompose(d + 1022, q);
  }

  /** Half of the unit at position s, and its value one lower. */
  lemma HalfUnit(d: nat)
    requires d <= 51
    ensures Pow2(52 - d) == 2 * Pow2(51 - d)
    ensures Pow2(51 - d) <= HALF
  {
    hide Pow2;
    Pow2Add(1, 51 - d);
    Pow2Small();
    Pow2Monotone(51 - d, 51);
    Pow2Values();
    assert Pow2(51) == HALF by { Pow2Add(51, 1); }
  }

  lemma MiddleAway(x: Word)
    requires ONE <= Abs(x) < Compose(1075, 0)
    ensures IsRoundAway(x, Round(x))
  {
    hide Pow2, Mag, Shr, Low, And, AndNot, NearestWhole, TiesAway;
    var d, q := MiddleParts(x);
    ShiftedConstants(d);
    HalfUnit(d);
    AddAndClear(x, d, q, Pow2(51 - d), Round(x));
    SignificandWithinHalf(d, q, Shr(q + Pow2(51 - d), 52 - d));
  }

  /** Line 136: bit 52 - d of the pattern is the parity of the integer part. At
      d = 0 it is the lowest exponent bit, which is set because the bias is odd. */
  lemma ParityBit(x: Word, d: nat, q: nat)
    requires d <= 51 && FRAC <= q < 2 * FRAC && Abs(x) == Compose(d + 1022, q)
    ensures And(Shr(x, CountSub(52, d)), 1) == Shr(q, 52 - d) % 2
  {
    hide Pow2, Shr, Low, And;
    var c := SignBit(x) * 2048 + d + 1022;
    assert x == Compose(c, q);
    LowPart(c, q, 52 - d);
    AndOne(Shr(x, 52 - d));
    EvenPart(c, d);
  }

  lemma EvenPart(c: nat, d: nat)
    requires d == 0 ==> c % 2 == 0
    ensures (c * Pow2(d)) % 2 == 0
  {
    if d > 0 {
      var p := Pow2(d - 1);
      Regroup(c, p);
      TwiceIsEven(c * p);
    } else {
      assert c * Pow2(0) == c;
    }
  }

  /** Adding one half if n is odd, one unit less if it is even, and cutting off. */
  lemma HalfToEven(q: nat, p: nat, n: nat, k: nat)
    requires p > 0 && n * (2 * p) <= q < n * (2 * p) + 2 * p
    requires var h := if n % 2 == 1 then p else p - 1; k * (2 * p) <= q + h < k * (2 * p) + 2 * p
    ensures 2 * AbsDiff(q, k * (2 * p)) <= 2 * p
    ensures 2 * AbsDiff(q, k * (2 * p)) < 2 * p || k % 2 == 0
  {
    var u := 2 * p;
    MulSucc(n, u);
    MulSucc(n + 1, u);
    if k < n {
      MulMono(k + 1, n, u);
      MulSucc(k, u);
    } else if k > n + 1 {
      MulMono(n + 2, k, u);
    }
    assert k == n || k == n + 1;
  }

  lemma MiddleEven(x: Word)
    requires ONE <= Abs(x) < Compose(1075, 0)
    ensures IsRoundToEven(x, RoundToEven(x))
  {
    hide Pow2, Mag, Shr, Low, And, AndNot, NearestWhole, TiesToEven;
    var d, q := MiddleParts(x);
    var p, n := Pow2(51 - d), Shr(q, 52 - d);
    ShiftedConstants(d);
    HalfUnit(d);
    ParityBit(x, d, q);
    Split(q, 52 - d);
    var h := if n % 2 == 1 then p else p - 1;
    assert ShrWord(HalfOrLess(x, d), d) == h;
    AddAndClear(x, d, q, h, RoundToEven(x));
    HalfToEven(q, p, n, Shr(q + h, 52 - d));
    SignificandWithinHalf(d, q, Shr(q + h, 52 - d));
  }

  // ----- large magnitudes are whole already -----

  lemma LargeWhole(a: nat)
    requires Compose(1075, 0) <= a < INF
    ensures exists k: nat :: Mag(a) == Whole(k)
  {
    hide Pow2, Mag;
    var e, q := MagParts(a);
    Pow2Add(e - 1074, 1074);
    MulAssoc(q, Pow2(e - 1074), Pow2(1074));
    assert Mag(a) == Whole(q * Pow2(e - 1074));
  }

  lemma LargeUnchanged(x: Word)
    requires Abs(x) >= Compose(1075, 0)
    ensures Round(x) == x && RoundToEven(x) == x
  {
    hide Pow2, Shr, Low, And, AndNot;
    FieldValues(x);
    var d := ExpoField(x) - 1023;
    AndAtMost(Shr(x, CountSub(52, d)), 1);
    Pow2Values();
    Pow2Monotone(52, d);
    LowAll(HalfOrLess(x, d), d);
    LowAll(FRAC - 1, d);
    AndNotZero(x);
  }

  lemma LargeRounded(x: Word)
    requires Compose(1075, 0) <= Abs(x) < INF
    ensures IsRoundAway(x, x) && IsRoundToEven(x, x)
  {
    hide Pow2, Mag;
    LargeWhole(Abs(x));
    var k: nat :| Mag(Abs(x)) == Whole(k);
    WithinHalf(Mag(Abs(x)), k);
  }

  // ----- the results -----

  /** Round rounds every finite number to the nearest integer, halves away from
      zero, and leaves infinities and NaNs alone. */
  lemma RoundCorrect(x: Word)
    ensures IsFinite(x) ==> IsRoundAway(x, Round(x))
    ensures !IsFinite(x) ==> Round(x) == x
  {
    hide Round, IsRoundAway, RoundToEven, IsRoundToEven;
    if Abs(x) < ONE {
      BelowOne(x);
    } else if Abs(x) < Compose(1075, 0) {
      MiddleAway(x);
    } else {
      LargeUnchanged(x);
      if IsFinite(x) { LargeRounded(x); }
    }
  }

  /** RoundToEven rounds every finite number to the nearest integer, halves to the
      even one, and leaves infinities and NaNs alone. */
  lemma RoundToEvenCorrect(x: Word)
    ensures IsFinite(x) ==> IsRoundToEven(x, RoundToEven(x))
    ensures !IsFinite(x) ==> RoundToEven(x) == x
  {
    hide Round, IsRoundAway, RoundToEven, IsRoundToEven;
    if Abs(x) < ONE {
      BelowOne(x);
    } else if Abs(x) < Compose(1075, 0) {
      MiddleEven(x);
    } else {
      LargeUnchanged(x);
      if IsFinite(x) { LargeRounded(x); }
    }
  }
}
