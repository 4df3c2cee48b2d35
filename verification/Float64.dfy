/** IEEE 754 binary64 values as bit patterns. Every finite value is an integer
    multiple of 2^-1074, so magnitudes are natural numbers in that unit, and
    rounding is stated on exact integers and quotients of integers. */
module Float64 {
  import opened Words

  const INF: nat := 0x7FF0_0000_0000_0000
  const SIGN: nat := 0x8000_0000_0000_0000
  const NAN: Word := 0x7FF8_0000_0000_0001
  const FRAC: nat := 0x10_0000_0000_0000  // 2^52, the hidden bit

  /** 0 or 1 */
  function SignBit(b: Word): nat { if b < SIGN then 0 else 1 }

  /** The pattern without its sign. */
  function Abs(b: Word): Word { if b < SIGN then b else b - SIGN }

  /** The biased exponent field. */
  function Expo(b: Word): nat { (b / 0x10_0000_0000_0000) % 2048 }

  /** The same field as the code extracts it: (x >> shift) & mask. */
  function ExpoField(x: Word): nat { And(Shr(x, 52), 2047) }

  function WithSign(s: nat, a: nat): Word
    requires s <= 1 && a < SIGN
  {
    if s == 0 then a else SIGN + a
  }

  predicate IsFinite(b: Word) { Abs(b) < INF }
  predicate IsInf(b: Word) { Abs(b) == INF }
  predicate IsNaN(b: Word) { Abs(b) > INF }
  predicate IsZero(b: Word) { Abs(b) == 0 }

  /** The unsigned pattern with significand q, hidden bit included, at exponent e;
      q = 2^53 carries into the exponent field. */
  function Compose(e: nat, q: nat): nat { e * 0x10_0000_0000_0000 + q }

  /** Magnitude of an unsigned pattern in units of 2^-1074. The pattern INF gets
      2^1024, the value the next binade would start with: this is how rounding
      to nearest treats overflow (section 4.3.1 of IEEE 754-2008). The first two
      binades count single units; from there on one more in the exponent field
      doubles the value. */
  function Mag(a: nat): nat {
    if a < 2 * FRAC then a else 2 * Mag(a - FRAC)
  }

  /** Exact value of a finite pattern in units of 2^-1074. */
  function Val(b: Word): int {
    if b < SIGN then Mag(b) else 0 - Mag(Abs(b))
  }

  // ----- fields -----

  lemma Fields(x: nat)
    ensures Shr(x, 52) == x / 0x10_0000_0000_0000
    ensures Low(x, 52) == x % 0x10_0000_0000_0000
  {
    Pow2Values();
    SplitUnique(x, 52, x / 0x10_0000_0000_0000, x % 0x10_0000_0000_0000);
  }

  lemma ExpoFieldValue(x: Word)
    ensures ExpoField(x) == Abs(x) / 0x10_0000_0000_0000
  {
    hide Pow2, Shr, Low, And;
    Pow2Values();
    Fields(x);
    AndMask(Shr(x, 52), 11);
    SplitUnique(Shr(x, 52), 11, SignBit(x), Abs(x) / 0x10_0000_0000_0000);
  }

  /** Clearing the exponent field of an unsigned pattern. */
  lemma ClearExpo(x: nat)
    requires x < SIGN
    ensures AndNot(x, INF) == x % 0x10_0000_0000_0000
  {
    hide Shr, Low, Pow2, AndNot;
    Fields(x);
    Pow2Values();
    AndNotShifted(x, 2047, 52, INF);
    AndNotMask(Shr(x, 52), 11);
    LowAll(Shr(x, 52), 11);
  }

  /** Setting the hidden bit of a fraction. */
  lemma SetHidden(f: nat)
    requires f < FRAC
    ensures Or(f, FRAC) == FRAC + f
  {
    hide Or, Low, Shr, Pow2;
    Pow2Values();
    OrSymmetric(f, FRAC);
    SplitUnique(FRAC, 52, 1, 0);
    OrDisjoint(FRAC, f, 52);
  }

  /** A biased exponent shifted into its field. */
  lemma PlaceExpo(e: nat)
    requires e < 2048
    ensures Shl(e, 52) == e * 0x10_0000_0000_0000
  {
    hide Pow2, Low, Shr, Shl;
    Pow2Values();
    ShlExact(e, 52);
  }

  // ----- patterns are ordered like their magnitudes -----

  /** The usual reading of a pattern: significand times power of two. */
  lemma {:induction false} MagCompose(e: nat, q: nat)
    requires q <= 2 * FRAC && (e > 0 ==> q >= FRAC)
    ensures Mag(Compose(e, q)) == q * Pow2(e)
    decreases e
  {
    if e > 0 {
      MagCompose(e - 1, q);
      Regroup(q, Pow2(e - 1));
    }
  }

  /** Every pattern is such a composition. */
  lemma MagParts(a: nat) returns (e: nat, q: nat)
    ensures a == Compose(e, q) && q < 2 * FRAC && (e > 0 ==> q >= FRAC)
    ensures Mag(a) == q * Pow2(e) && Mag(a + 1) == (q + 1) * Pow2(e)
  {
    if a < FRAC {
      e, q := 0, a;
    } else {
      e, q := a / 0x10_0000_0000_0000 - 1, FRAC + a % 0x10_0000_0000_0000;
    }
    MagCompose(e, q);
    MagCompose(e, q + 1);
  }

  lemma {:induction false} MagMonotone(a: nat, b: nat)
    ensures a < b ==> Mag(a) < Mag(b)
    ensures a <= b ==> Mag(a) <= Mag(b)
    decreases b
  {
    if a < b && b >= 2 * FRAC {
      if a >= 2 * FRAC {
        MagMonotone(a - FRAC, b - FRAC);
      } else if b - FRAC < a {
        MagMonotone(FRAC, b - FRAC);
      } else {
        MagMonotone(a, b - FRAC);
      }
    }
  }

  lemma SmallMag(a: nat)
    requires a <= FRAC
    ensures Mag(a) == a
  {
  }

  lemma ZeroMag()
    ensures Mag(0) == 0
  {
  }

  const ONE: Word := 0x3FF0_0000_0000_0000

  lemma MagOne()
    ensures Mag(ONE) == Pow2(1074)
  {
    hide Pow2, Mag;
    MagCompose(1022, FRAC);
    Pow2Values();
    Pow2Add(52, 1022);
  }

  lemma MagInjective(a: nat, b: nat)
    ensures Mag(a) == Mag(b) <==> a == b
  {
    MagMonotone(a, b);
    MagMonotone(b, a);
  }

  // ----- rounding to nearest, ties to even -----

  function Magnitude(v: int): nat { if v >= 0 then v else -v }

  function Dist(n: nat, d: nat, c: nat): nat {
    AbsDiff(n, Mag(c) * d)
  }

  function AbsDiff(x: int, y: int): nat { if x >= y then x - y else y - x }

  /** b is the pattern nearest to the exact magnitude n / d; of two nearest ones
      it is the one with an even significand. */
  ghost predicate NearestEven(n: nat, d: nat, b: nat) {
    && b <= INF
    && forall c: nat | c <= INF ::
      && Dist(n, d, b) <= Dist(n, d, c)
      && (c != b && Dist(n, d, b) == Dist(n, d, c) ==> b % 2 == 0)
  }

  /** n / d lies between the midpoints on the two sides of b. */
  ghost predicate BetweenMidpoints(n: nat, d: nat, b: nat) {
    && (2 * n < Mag(b) * d + Mag(b + 1) * d || (2 * n == Mag(b) * d + Mag(b + 1) * d && b % 2 == 0))
    && (b > 0 ==> (2 * n > Mag(b - 1) * d + Mag(b) * d || (2 * n == Mag(b - 1) * d + Mag(b) * d && b % 2 == 0)))
  }

  function Saturate(b: nat): nat { if b < INF then b else INF }

  lemma Ordered(b: nat, c: nat, d: nat)
    requires d > 0
    ensures b < c ==> Mag(b) * d < Mag(c) * d
    ensures b <= c ==> Mag(b) * d <= Mag(c) * d
    ensures Mag(b) * d == Mag(c) * d ==> b == c
  {
    MagMonotone(b, c);
    MagMonotone(c, b);
    MulCancel(Mag(b), Mag(c), d);
  }

  lemma DistRight(n: nat, d: nat, b: nat, c: nat)
    requires d > 0 && b < c && 2 * n <= Mag(b) * d + Mag(b + 1) * d
    ensures Dist(n, d, b) <= Dist(n, d, c)
    ensures Dist(n, d, b) == Dist(n, d, c) ==> 2 * n == Mag(b) * d + Mag(b + 1) * d
  {
    Ordered(b, b + 1, d);
    Ordered(b + 1, c, d);
  }

  lemma DistLeft(n: nat, d: nat, b: nat, c: nat)
    requires d > 0 && c < b && 2 * n >= Mag(b - 1) * d + Mag(b) * d
    ensures Dist(n, d, b) <= Dist(n, d, c)
    ensures Dist(n, d, b) == Dist(n, d, c) ==> 2 * n == Mag(b - 1) * d + Mag(b) * d
  {
    Ordered(b - 1, b, d);
    Ordered(c, b - 1, d);
  }

  /** Looking at the two neighbours is enough, and results beyond the largest
      finite pattern become infinite. */
  lemma NearestFromMidpoints(n: nat, d: nat, b: nat)
    requires d > 0 && BetweenMidpoints(n, d, b)
    ensures NearestEven(n, d, Saturate(b))
  {
    var s := Saturate(b);
    if b > INF {
      PastInfinity(n, d, b);
    }
    forall c: nat | c <= INF
      ensures Dist(n, d, s) <= Dist(n, d, c)
      ensures c != s && Dist(n, d, s) == Dist(n, d, c) ==> s % 2 == 0
    {
      if c < s {
        DistLeft(n, d, s, c);
      } else if c > s {
        DistRight(n, d, s, c);
      }
    }
  }

  lemma PastInfinity(n: nat, d: nat, b: nat)
    requires d > 0 && b > INF && BetweenMidpoints(n, d, b)
    ensures 2 * n > Mag(INF - 1) * d + Mag(INF) * d
  {
    Ordered(INF, b - 1, d);
    Ordered(INF, b, d);
    Ordered(INF - 1, INF, d);
  }

  /** There is only one correctly rounded pattern. */
  lemma NearestUnique(n: nat, d: nat, b: nat, c: nat)
    requires d > 0 && NearestEven(n, d, b) && NearestEven(n, d, c)
    ensures b == c
  {
    NearestOrdered(n, d, b, c);
    NearestOrdered(n, d, c, b);
  }

  lemma NearestOrdered(n: nat, d: nat, b: nat, c: nat)
    requires d > 0 && NearestEven(n, d, b) && NearestEven(n, d, c)
    ensures b >= c
  {
    if b < c {
      assert Dist(n, d, b) == Dist(n, d, c) <= Dist(n, d, b + 1);
      Ordered(b, b + 1, d);
      Ordered(b + 1, c, d);
    }
  }

  /** A common factor of numerator and denominator does not matter. */
  lemma NearestScale(n: nat, d: nat, k: nat, b: nat)
    requires k > 0
    ensures NearestEven(n * k, d * k, b) <==> NearestEven(n, d, b)
  {
    hide Mag;
    forall c: nat | c <= INF
      ensures Dist(n * k, d * k, b) <= Dist(n * k, d * k, c) <==> Dist(n, d, b) <= Dist(n, d, c)
      ensures Dist(n * k, d * k, b) == Dist(n * k, d * k, c) <==> Dist(n, d, b) == Dist(n, d, c)
    {
      DistScale(n, d, k, b);
      DistScale(n, d, k, c);
      hide Dist;
      MulCancel(Dist(n, d, b), Dist(n, d, c), k);
    }
  }

  lemma DistScale(n: nat, d: nat, k: nat, c: nat)
    requires k > 0
    ensures Dist(n * k, d * k, c) == Dist(n, d, c) * k
  {
    hide Mag;
    MulAssoc(Mag(c), d, k);
    var x := Mag(c) * d;
    MulCancel(n, x, k);
    assert (n - x) * k == n * k - x * k;
    assert (x - n) * k == x * k - n * k;
  }

  /** A magnitude that is a pattern's own rounds to that pattern. */
  lemma NearestExact(n: nat, d: nat, b: nat)
    requires d > 0 && b <= INF && n == Mag(b) * d
    ensures NearestEven(n, d, b)
  {
    forall c: nat | c <= INF && Dist(n, d, c) == 0
      ensures c == b
    {
      Ordered(b, c, d);
    }
  }

  /** q + r / u to the nearest integer, ties to even. */
  function RoundUnit(q: nat, r: nat, u: nat): nat {
    if 2 * r > u || (2 * r == u && q % 2 == 1) then q + 1 else q
  }

  /** At or beyond 2^1024 the nearest pattern is infinity. */
  lemma NearestInfinity(n: nat, d: nat)
    requires d > 0 && n >= Mag(INF) * d
    ensures NearestEven(n, d, INF)
    ensures !NearestEven(n, d, 0)
  {
    hide Mag;
    forall c: nat | c <= INF
      ensures Mag(c) * d <= Mag(INF) * d
      ensures Mag(c) * d == Mag(INF) * d ==> c == INF
    {
      Ordered(c, INF, d);
    }
    Ordered(0, INF, d);
    assert Dist(n, d, 0) > Dist(n, d, INF);
  }

  /** Below half a unit it is zero. */
  lemma NearestZero(n: nat, d: nat)
    requires d > 0 && 2 * n < d
    ensures NearestEven(n, d, 0)
    ensures !NearestEven(n, d, INF)
  {
    hide Mag;
    ZeroMag();
    assert Mag(1) == 1 by { SmallMag(1); }
    forall c: nat | 0 < c <= INF
      ensures Dist(n, d, 0) < Dist(n, d, c)
    {
      Ordered(1, c, d);
    }
  }

  /** Rounding of the exact magnitude n / d once its integer part q at exponent e
      and the position of the rest r against half of the unit u are known. */
  lemma RoundPosition(n: nat, d: nat, e: nat, q: nat, u: nat, r: nat, b: nat)
    requires d > 0 && q < 2 * FRAC && (e > 0 ==> q >= FRAC)
    requires u == Pow2(e) * d && n == q * u + r && r < u
    requires b == Compose(e, RoundUnit(q, r, u))
    ensures BetweenMidpoints(n, d, b)
  {
    hide Mag, Pow2, Compose;
    var a := Compose(e, q);
    MagCompose(e, q);
    MagCompose(e, q + 1);
    MulAssoc(q, Pow2(e), d);
    MulAssoc(q + 1, Pow2(e), d);
    MulSucc(q, u);
    ComposeNext(e, q);
    assert Mag(a) * d == q * u && Mag(a + 1) * d == q * u + u;
    RoundNeighbours(n, d, a, q, q * u, u, r);
  }

  lemma ComposeNext(e: nat, q: nat)
    ensures Compose(e, q + 1) == Compose(e, q) + 1 && Compose(e, q) % 2 == q % 2
  {
  }

  lemma RoundNeighbours(n: nat, d: nat, a: nat, q: nat, at: nat, u: nat, r: nat)
    requires d > 0 && a % 2 == q % 2
    requires Mag(a) * d == at && Mag(a + 1) * d == at + u && n == at + r && r < u
    ensures BetweenMidpoints(n, d, if RoundUnit(q, r, u) == q then a else a + 1)
  {
    hide Mag;
    if RoundUnit(q, r, u) == q {
      if a > 0 { Ordered(a - 1, a, d); }
    } else {
      Ordered(a + 1, a + 2, d);
    }
  }

  // ----- a reference rounding function -----

  /** Exponent at which n / 2^k has a 53-bit integer part (0 for smaller ones). */
  function RoundExpo(n: nat, k: nat): nat {
    if Len(n) > 53 + k then Len(n) - 53 - k else 0
  }

  /** The pattern n / 2^k rounds to. Every arithmetic operation of IEEE 754 is
      this function of its exact result (section 5.1 of IEEE 754-2008). */
  function Round(n: nat, k: nat): nat {
    var e := RoundExpo(n, k);
    Saturate(Compose(e, RoundUnit(Shr(n, e + k), Low(n, e + k), Pow2(e + k))))
  }

  lemma RoundIsNearest(n: nat, k: nat)
    ensures NearestEven(n, Pow2(k), Round(n, k))
  {
    hide Pow2, Shr, Low;
    var e := RoundExpo(n, k);
    var s := e + k;
    var q, r := Shr(n, s), Low(n, s);
    Split(n, s);
    Pow2Add(e, k);
    RoundExpoFits(n, k);
    var b := Compose(e, RoundUnit(q, r, Pow2(s)));
    RoundPosition(n, Pow2(k), e, q, Pow2(s), r, b);
    NearestFromMidpoints(n, Pow2(k), b);
  }

  lemma RoundExpoFits(n: nat, k: nat)
    ensures var e := RoundExpo(n, k); var q := Shr(n, e + k);
      q < 2 * FRAC && (e > 0 ==> q >= FRAC)
  {
    hide Pow2, Shr, Low, Len;
    var e := RoundExpo(n, k);
    var s := e + k;
    Pow2Values();
    if n == 0 {
      LowAll(0, s);
    } else {
      LenBounds(n);
      Pow2Monotone(Len(n), 53 + s);
      Pow2Add(53, s);
      ShrLess(n, s, 2 * FRAC);
      if e > 0 {
        Pow2Add(52, s);
        ShrAtLeast(n, s, FRAC);
      }
    }
  }

  /** An exact result that is representable is returned unchanged. */
  lemma RoundExact(n: nat, k: nat, b: nat)
    requires b <= INF && n == Mag(b) * Pow2(k)
    ensures Round(n, k) == b
  {
    RoundIsNearest(n, k);
    NearestExact(n, Pow2(k), b);
    NearestUnique(n, Pow2(k), b, Round(n, k));
  }
}
