/** The floating-point operations that package math takes from the hardware: exact
    result, then one rounding to nearest even (section 5.1 of IEEE 754-2008). */
module FloatOps {
  import opened Words
  import opened Float64

  /** -x */
  function FNeg(x: Word): Word { if x < SIGN then x + SIGN else x - SIGN }

  /** The pattern of the exact value v / 2^k, v not zero. */
  function FromExact(v: int, k: nat): Word {
    RoundAtMost(Magnitude(v), k);
    WithSign(if v < 0 then 1 else 0, Round(Magnitude(v), k))
  }

  lemma RoundAtMost(n: nat, k: nat)
    ensures Round(n, k) <= INF
  {
  }

  /** x + y for finite x and y. An exact zero is +0 unless both are -0 (section 6.3). */
  function FAdd(x: Word, y: Word): Word {
    if Val(x) + Val(y) == 0 then (if SignBit(x) == 1 && SignBit(y) == 1 then SIGN else 0)
    else FromExact(Val(x) + Val(y), 0)
  }

  /** x - y */
  function FSub(x: Word, y: Word): Word { FAdd(x, FNeg(y)) }

  /** x * y for finite x and y. */
  function FMul(x: Word, y: Word): Word {
    RoundAtMost(Mag(Abs(x)) * Mag(Abs(y)), 1074);
    WithSign(if SignBit(x) == SignBit(y) then 0 else 1, Round(Mag(Abs(x)) * Mag(Abs(y)), 1074))
  }

  /** x < y when neither is a NaN. */
  predicate FLess(x: Word, y: Word) { Val(x) < Val(y) }

  predicate FLessEq(x: Word, y: Word) { Val(x) <= Val(y) }

  // ----- representable results -----

  /** a is the finite pattern with exactly the magnitude n. */
  ghost predicate Represents(a: nat, n: nat) { a < INF && Mag(a) == n }

  lemma ValOf(x: Word)
    ensures Val(x) == if SignBit(x) == 0 then Mag(Abs(x)) else 0 - Mag(Abs(x))
    ensures Val(FNeg(x)) == 0 - Val(x)
    ensures Val(x) == 0 <==> IsZero(x)
  {
    hide Mag;
    MagInjective(Abs(x), 0);
    ZeroMag();
  }

  /** An exact result that is representable is the result. */
  lemma AddExact(x: Word, y: Word, a: nat)
    requires Represents(a, Magnitude(Val(x) + Val(y)))
    ensures Val(FAdd(x, y)) == Val(x) + Val(y)
    ensures Abs(FAdd(x, y)) == a
    ensures Val(x) + Val(y) > 0 ==> SignBit(FAdd(x, y)) == 0
    ensures Val(x) + Val(y) < 0 ==> SignBit(FAdd(x, y)) == 1
  {
    hide Mag, Round;
    RoundExact(Magnitude(Val(x) + Val(y)), 0, a);
    MagInjective(a, 0);
    ZeroMag();
  }

  lemma SubExact(x: Word, y: Word, a: nat)
    requires Represents(a, Magnitude(Val(x) - Val(y)))
    ensures Val(FSub(x, y)) == Val(x) - Val(y)
    ensures Val(x) > Val(y) ==> SignBit(FSub(x, y)) == 0
    ensures Val(x) < Val(y) ==> SignBit(FSub(x, y)) == 1
    ensures Val(x) == Val(y) && SignBit(x) == 0 ==> FSub(x, y) == 0
    ensures Abs(FSub(x, y)) == a
  {
    hide Mag;
    ValOf(y);
    AddExact(x, FNeg(y), a);
  }

  lemma MulExact(x: Word, y: Word, a: nat)
    requires a <= INF && Mag(Abs(x)) * Mag(Abs(y)) == Mag(a) * Pow2(1074)
    ensures FMul(x, y) == WithSign(if SignBit(x) == SignBit(y) then 0 else 1, a)
  {
    hide Mag, Round, Pow2;
    RoundExact(Mag(Abs(x)) * Mag(Abs(y)), 1074, a);
  }

  /** A 53-bit integer times a power of two is representable below 2^1024. */
  lemma {:induction false} ScaledRepresentable(q: nat, e: nat) returns (a: nat)
    requires q < 2 * FRAC && q * Pow2(e) < Mag(INF)
    ensures Represents(a, q * Pow2(e))
    decreases e
  {
    if e == 0 || q >= FRAC {
      a := Compose(e, q);
      MagCompose(e, q);
      hide Mag;
      MagMonotone(INF, a);
    } else {
      Regroup(q, Pow2(e - 1));
      a := ScaledRepresentable(2 * q, e - 1);
    }
  }

  /** Exponents are ordered like patterns. */
  lemma PartsOrdered(a: nat, b: nat) returns (ea: nat, qa: nat, eb: nat, qb: nat)
    requires b <= a
    ensures eb <= ea && qa < 2 * FRAC && qb < 2 * FRAC
    ensures Mag(a) == (qa * Pow2(ea - eb)) * Pow2(eb) && Mag(b) == qb * Pow2(eb)
  {
    hide Mag, Pow2;
    ea, qa := MagParts(a);
    eb, qb := MagParts(b);
    Pow2Add(ea - eb, eb);
    MulAssoc(qa, Pow2(ea - eb), Pow2(eb));
  }

  /** Numbers within a factor of two of each other subtract exactly. */
  lemma CloseDifference(a: nat, b: nat) returns (c: nat)
    requires b <= a < INF && Mag(a) <= 2 * Mag(b)
    ensures Mag(b) <= Mag(a)
    ensures Represents(c, Mag(a) - Mag(b))
  {
    hide Mag, Pow2;
    var ea, qa, eb, qb := PartsOrdered(a, b);
    var n, p := qa * Pow2(ea - eb), Pow2(eb);
    MagMonotone(b, a);
    MulCancel(qb, n, p);
    MulCancel(n, 2 * qb, p);
    assert (n - qb) * p == n * p - qb * p;
    MagMonotone(a, INF);
    c := ScaledRepresentable(n - qb, eb);
  }

  /** A remainder of two representable numbers is representable. */
  lemma RemainderRepresentable(a: nat, b: nat) returns (c: nat)
    requires a < INF && 0 < b <= INF
    ensures Mag(b) > 0
    ensures Represents(c, Mag(a) % Mag(b))
  {
    hide Mag, Pow2;
    MagMonotone(0, b);
    if a < b {
      MagMonotone(a, b);
      c := a;
    } else {
      var ea, qa, eb, qb := PartsOrdered(a, b);
      var n := qa * Pow2(ea - eb);
      MulCancel(0, qb, Pow2(eb));
      var rest := ScaledRemainder(n, qb, Pow2(eb));
      MagMonotone(b, INF);
      MulStrict(rest, qb, Pow2(eb));
      c := ScaledRepresentable(rest, eb);
    }
  }

  lemma ScaledRemainder(n: nat, q: nat, p: nat) returns (r: nat)
    requires q > 0 && p > 0
    ensures q * p > 0 && r < q && (n * p) % (q * p) == r * p
  {
    var k := n / q;
    r := n % q;
    MulStrict(0, q, p);
    Distribute(k, q, r, p);
    MulStrict(r, q, p);
    DivModUnique(n * p, q * p, k, r * p);
  }

  /** A division with remainder is the only one. */
  lemma DivModUnique(x: int, d: int, q: int, r: int)
    requires d > 0 && x == q * d + r && 0 <= r < d
    ensures x / d == q && x % d == r
  {
    QuotientUnique(d, q, r, x / d, x % d);
  }
}
