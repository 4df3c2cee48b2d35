/** The bit-by-bit square root of package math and its correct rounding. */
module Sqrt {
  import opened Words
  import opened Float64

  function Square(x: nat): nat { x * x }

  lemma SquareMono(a: nat, b: nat)
    ensures a <= b ==> Square(a) <= Square(b)
    ensures a < b ==> Square(a) < Square(b)
  {
    if a < b {
      MulMono(a, b, a);
      MulStrict(a, b, b);
    }
  }

  lemma SquareScale(a: nat, u: nat)
    ensures Square(a * u) == Square(a) * Square(u)
  {
    assert (a * u) * (a * u) == (a * a) * (u * u);
  }

  // ----- what a correctly rounded root is -----

  /** b is the pattern nearest to the real square root of t (both in units of
      2^-1074, the root of t being compared through squares): every other pattern
      c has the midpoint of b and c strictly between itself and the root, so no
      tie can occur. */
  ghost predicate NearestRoot(t: nat, b: nat) {
    && b <= INF
    && forall c: nat | c <= INF ::
      && (c > b ==> 4 * t < Square(Mag(b) + Mag(c)))
      && (c < b ==> 4 * t > Square(Mag(b) + Mag(c)))
  }

  /** The square of the root of pattern x, in units of 2^-2148. */
  function RootTarget(x: nat): nat { Mag(x) * Pow2(1074) }

  lemma NearestRootFromNeighbours(t: nat, b: nat)
    requires 0 < b < INF
    requires Square(Mag(b - 1) + Mag(b)) < 4 * t < Square(Mag(b) + Mag(b + 1))
    ensures NearestRoot(t, b)
  {
    forall c: nat | c <= INF
      ensures c > b ==> 4 * t < Square(Mag(b) + Mag(c))
      ensures c < b ==> 4 * t > Square(Mag(b) + Mag(c))
    {
      hide Square, Mag;
      MagMonotone(b + 1, c);
      MagMonotone(c, b - 1);
      SquareMono(Mag(b) + Mag(b + 1), Mag(b) + Mag(c));
      SquareMono(Mag(b) + Mag(c), Mag(b - 1) + Mag(b));
    }
  }

  /** A target has at most one correctly rounded root. */
  lemma NearestRootUnique(t: nat, b: nat, c: nat)
    requires NearestRoot(t, b) && NearestRoot(t, c)
    ensures b == c
  {
    hide Square;
    assert Square(Mag(b) + Mag(c)) == Square(Mag(c) + Mag(b));
  }

  /** If the root is representable, it is its own correct rounding. */
  lemma NearestRootExact(y: nat)
    requires y <= INF
    ensures NearestRoot(Square(Mag(y)), y)
  {
    forall c: nat | c <= INF
      ensures c > y ==> 4 * Square(Mag(y)) < Square(Mag(y) + Mag(c))
      ensures c < y ==> 4 * Square(Mag(y)) > Square(Mag(y) + Mag(c))
    {
      assert 4 * Square(Mag(y)) == Square(2 * Mag(y));
      MagMonotone(y, c);
      MagMonotone(c, y);
      SquareMono(2 * Mag(y), Mag(y) + Mag(c));
      SquareMono(Mag(y) + Mag(c), 2 * Mag(y));
    }
  }

  // ----- the digit recurrence -----

  /** One step: with s = 2q and ix * r = n - q^2, trying the bit r. */
  lemma DigitStep(n: nat, q: nat, r: nat, ix: nat)
    requires ix * r == n - Square(q) && n < Square(q + 2 * r) && r > 0
    ensures 2 * q + r <= ix ==> (ix - (2 * q + r)) * r == n - Square(q + r)
    ensures 2 * q + r > ix ==> n < Square(q + r)
    ensures ix < 4 * q + 4 * r
  {
    var t := 2 * q + r;
    assert Square(q + r) == Square(q) + t * r;
    assert Square(q + 2 * r) == Square(q) + (4 * q + 4 * r) * r;
    MulCancel(ix, 4 * q + 4 * r, r);
    if t > ix {
      MulCancel(ix, t, r);
    } else {
      assert (ix - t) * r == ix * r - t * r;
    }
  }

  /** Halving r while doubling the remainder keeps their product. */
  lemma ShiftStep(ix: nat, r: nat, h: nat)
    requires r == 2 * h
    ensures (2 * ix) * h == ix * r
  {
  }

  /** 54 bits of root from a 107- or 108-bit radicand: q is its integer square root. */
  ghost predicate IntegerRoot(n: nat, q: nat) {
    Square(q) <= n < Square(q + 1)
  }

  const ROOT_BITS: nat := 54

  /** Width of the interval that still holds the root when bit j is next. */
  ghost function Width(j: int): nat { if j >= 0 then 2 * Pow2(j) else 1 }

  lemma Radicand(m: nat)
    requires FRAC <= m <= 4 * FRAC - 2
    ensures Square(2 * FRAC) <= m * Pow2(ROOT_BITS) < Square(4 * FRAC - 1)
    ensures Square(4 * FRAC - 1) < Square(4 * FRAC)
    ensures Square(0) == 0
  {
    hide Pow2;
    Pow2Values();
    assert Pow2(54) == 4 * FRAC by { Pow2Add(53, 1); }
    MulMono(FRAC, m, 4 * FRAC);
    MulMono(m, 4 * FRAC - 2, 4 * FRAC);
  }

  /** What the loop keeps, bit j of the root being next. */
  ghost predicate Recurrence(n: nat, j: int, q: nat, s: nat, r: nat, ix: nat) {
    && -1 <= j <= 53
    && r == (if j >= 0 then Pow2(j) else 0)
    && s == 2 * q
    && q + Width(j) <= 4 * FRAC
    && Square(q) <= n < Square(q + Width(j))
    && (j >= 0 ==> ix * r == n - Square(q))
    && (j < 0 ==> ix == 2 * (n - Square(q)))
  }

  /** One turn of the loop keeps it, and no word overflows. */
  lemma NextDigit(n: nat, j: int, q: nat, s: nat, r: nat, ix: nat)
    requires Recurrence(n, j, q, s, r, ix) && r != 0
    ensures var t := s + r;
      && t + r <= 8 * FRAC
      && ix < 16 * FRAC && Shr(r, 1) < r
      && if t <= ix then Recurrence(n, j - 1, q + r, t + r, Shr(r, 1), 2 * (ix - t))
         else Recurrence(n, j - 1, q, s, Shr(r, 1), 2 * ix)
  {
    hide Square, Shr, Recurrence, Pow2;
    assert 0 <= j <= 53 && r == Pow2(j) && s == 2 * q && q + 2 * r <= 4 * FRAC && ix * r == n - Square(q)
        && Square(q) <= n < Square(q + 2 * r) by {
      Current(n, j, q, s, r, ix);
    }
    DigitStep(n, q, r, ix);
    HalveBit(j, r);
    if s + r <= ix {
      Halved(n, j, q + r, r, ix - (s + r));
    } else {
      Halved(n, j, q, r, ix);
    }
  }

  lemma Current(n: nat, j: int, q: nat, s: nat, r: nat, ix: nat)
    requires Recurrence(n, j, q, s, r, ix) && r != 0
    ensures 0 <= j <= 53 && r == Pow2(j) && s == 2 * q && q + 2 * r <= 4 * FRAC && ix * r == n - Square(q)
    ensures Square(q) <= n < Square(q + 2 * r)
  {
    hide Square;
  }

  /** Moving on to the next bit. */
  lemma Halved(n: nat, j: nat, q: nat, r: nat, ix: nat)
    requires j <= 53 && r == Pow2(j) && q + r <= 4 * FRAC && ix * r == n - Square(q)
    requires Square(q) <= n < Square(q + r)
    ensures Recurrence(n, j - 1, q, 2 * q, Shr(r, 1), 2 * ix)
  {
    hide Square, Shr, Pow2;
    HalveBit(j, r);
    if j > 0 {
      ShiftStep(ix, r, Pow2(j - 1));
      assert Width(j - 1) == r;
    } else {
      assert ix * r == ix;
    }
  }

  /** Lines 129-142: the bits of q from the top, r moving down. */
  method Digits(m: Word) returns (q: Word, ix: Word)
    requires FRAC <= m <= 4 * FRAC - 2
    ensures 2 * FRAC <= q <= 4 * FRAC - 2
    ensures IntegerRoot(m * Pow2(ROOT_BITS), q)
    ensures ix == 2 * (m * Pow2(ROOT_BITS) - Square(q))
  {
    hide Square, Low, Shr, Shl, Recurrence, Pow2;
    ghost var n := m * Pow2(ROOT_BITS);
    ShlOne(m);
    ix := Shl(m, 1);
    q := 0;
    var s: Word := 0;
    var r: Word := 2 * FRAC;
    ghost var j := 53;
    FirstDigit(m);
    while r != 0
      invariant s + 2 * r <= 8 * FRAC && q + r <= 4 * FRAC
      invariant Recurrence(n, j, q, s, r, ix)
      decreases j + 1
    {
      RecurrenceBounds(n, j, q, s, r, ix);
      NextDigit(n, j, q, s, r, ix);
      var t: Word := s + r;
      if t <= ix {
        s := t + r;
        ix := ix - t;
        q := q + r;
      }
      ShlOne(ix);
      ix := Shl(ix, 1);
      r := Shr(r, 1);
      j := j - 1;
      RecurrenceBounds(n, j, q, s, r, ix);
    }
    LastDigit(m, j, q, s, ix);
  }

  lemma RecurrenceBounds(n: nat, j: int, q: nat, s: nat, r: nat, ix: nat)
    requires Recurrence(n, j, q, s, r, ix)
    ensures s + 2 * r <= 8 * FRAC && q + r <= 4 * FRAC && (r != 0 ==> j >= 0)
  {
  }

  lemma FirstDigit(m: nat)
    requires FRAC <= m <= 4 * FRAC - 2
    ensures Recurrence(m * Pow2(ROOT_BITS), 53, 0, 0, 2 * FRAC, 2 * m)
  {
    hide Square;
    Radicand(m);
    RadicandStart(m, 2 * FRAC);
  }

  lemma LastDigit(m: nat, j: int, q: nat, s: nat, ix: nat)
    requires FRAC <= m <= 4 * FRAC - 2 && Recurrence(m * Pow2(ROOT_BITS), j, q, s, 0, ix)
    ensures 2 * FRAC <= q <= 4 * FRAC - 2
    ensures IntegerRoot(m * Pow2(ROOT_BITS), q)
    ensures ix == 2 * (m * Pow2(ROOT_BITS) - Square(q))
  {
    hide Square;
    Radicand(m);
    SquareMono(q + 1, 2 * FRAC);
    SquareMono(4 * FRAC - 1, q);
  }

  lemma HalveBit(j: nat, r: nat)
    requires r == Pow2(j)
    ensures Shr(r, 1) == if j > 0 then Pow2(j - 1) else 0
    ensures j > 0 ==> r == 2 * Pow2(j - 1)
    ensures j == 0 ==> r == 1
  {
  }

  lemma RadicandStart(m: nat, r: nat)
    requires r == 2 * FRAC
    ensures r == Pow2(53) && (2 * m) * r == m * Pow2(ROOT_BITS)
  {
    hide Pow2;
    Pow2Values();
    assert Pow2(54) == 2 * r by { Pow2Add(53, 1); }
  }

  /** The value of a positive finite pattern as m / 2^52 times 2^k. */
  ghost predicate Normalized(x: nat, m: nat, k: int) {
    && FRAC <= m < 2 * FRAC
    && -1074 <= k <= 1023
    && Mag(x) * Pow2(52) == m * Pow2(k + 1074)
  }

  /** Lines 112-124: significand with its leading bit at position 52, and the
      unbiased exponent. A subnormal significand is shifted up bit by bit. */
  method Normalize(x: Word) returns (ix: Word, exp: int)
    requires 0 < x < INF
    ensures Normalized(x, ix, exp)
  {
    hide Low, Shr, Shl, Or, AndNot, And, Mag, Pow2, Normalized;
    Fields(x);
    ix := x;
    exp := Expo(x);
    if exp == 0 {
      Pow2Values();
      ghost var j := 0;
      assert x * Pow2(j) == x by { NoShift(x); }
      AndBit(ix, 52);
      while And(ix, FRAC) == 0
        invariant 0 <= j <= 52
        invariant exp == -j
        invariant 0 < ix < 2 * FRAC
        invariant ix == x * Pow2(j)
        invariant And(ix, FRAC) == if ix < FRAC then 0 else FRAC
        decreases 2 * FRAC - ix
      {
        ShlOne(ix);
        Regroup(x, Pow2(j));
        assert Pow2(j + 1) == 2 * Pow2(j) by { Pow2Add(1, j); }
        ix := Shl(ix, 1);
        exp := exp - 1;
        j := j + 1;
        AndBit(ix, 52);
        BitBudget(x, j);
      }
      exp := exp + 1;
      NormalizedSubnormal(x, ix, j);
    } else {
      NormalizedNormal(x);
    }
    exp := exp - 1023;
    SetExpoBit(ix);
    ix := Or(AndNot(ix, INF), FRAC);
  }

  /** Lines 123-124: the exponent field of a shifted subnormal is already the
      hidden bit, that of a normal number is replaced by it. */
  lemma SetExpoBit(x: Word)
    requires x < SIGN
    ensures Or(AndNot(x, INF), FRAC) == FRAC + x % 0x10_0000_0000_0000
  {
    hide Or, AndNot;
    ClearExpo(x);
    SetHidden(x % 0x10_0000_0000_0000);
  }

  lemma BitBudget(x: nat, j: nat)
    requires x > 0 && x * Pow2(j) < 2 * FRAC
    ensures j <= 52
  {
    hide Pow2;
    if j > 52 {
      Pow2Values();
      Pow2Monotone(53, j);
      MulMono(1, x, Pow2(j));
    }
  }

  lemma NormalizedSubnormal(x: nat, m: nat, j: nat)
    requires 0 < x < FRAC && j <= 52 && m == x * Pow2(j) && FRAC <= m < 2 * FRAC
    ensures Normalized(x, m, -1022 - j)
  {
    hide Pow2;
    Pow2Add(j, 52 - j);
    MulAssoc(x, Pow2(j), Pow2(52 - j));
  }

  lemma NormalizedNormal(x: nat)
    requires FRAC <= x < INF
    ensures Normalized(x, FRAC + x % 0x10_0000_0000_0000, x / 0x10_0000_0000_0000 - 1023)
  {
    hide Pow2, Mag;
    var e, m := MagParts(x);
    assert e == x / 0x10_0000_0000_0000 - 1 && m == FRAC + x % 0x10_0000_0000_0000;
    Pow2Add(e, 52);
    MulAssoc(m, Pow2(e), Pow2(52));
  }

  // ----- rounding and scaling -----

  /** Half of the exponent: the target of the root is the 108-bit radicand scaled
      by an even power of two. */
  lemma RootScale(x: nat, m: nat, k: int, h: int)
    requires Normalized(x, m, k) && h == k / 2
    ensures h + 1021 >= 0
    ensures var d := if k % 2 == 1 then 2 * m else m;
      RootTarget(x) == (d * Pow2(ROOT_BITS)) * Square(Pow2(h + 1021))
  {
    hide Pow2, Mag;
    var d := if k % 2 == 1 then 2 * m else m;
    var g := h + 1021;
    Pow2Add(52, 1022);
    MulAssoc(Mag(x), Pow2(52), Pow2(1022));
    MulAssoc(m, Pow2(k + 1074), Pow2(1022));
    Pow2Add(k + 1074, 1022);
    assert RootTarget(x) == m * Pow2(k + 2096);
    assert m * Pow2(k + 2096) == d * Pow2(2 * h + 2096) by {
      if k % 2 == 1 {
        Pow2Add(1, 2 * h + 2096);
        Pow2Small();
        Regroup(m, Pow2(2 * h + 2096));
      }
    }
    Pow2Add(54, 2 * g);
    Pow2Add(g, g);
    MulAssoc(d, Pow2(54), Pow2(2 * g));
  }

  /** Rounding the 54-bit root q to 53 bits by its last bit is correct, and it
      never carries out of the significand. */
  lemma RoundRoot(n: nat, q: nat, g: nat, s: nat)
    requires IntegerRoot(n, q) && n % 2 == 0 && 2 * FRAC <= q <= 4 * FRAC - 2
    requires 400 <= g <= 1600
    requires s == if n == Square(q) then q / 2 else (q + q % 2) / 2
    ensures NearestRoot(n * Square(Pow2(g)), Compose(g + 1, s))
  {
    hide Square, Mag, Pow2;
    OddSquare(q);
    SquareMono(q + 1, 2 * s + 1);
    var b := Compose(g + 1, s);
    UpperMidpoint(n, s, g, b);
    LowerMidpoint(n, q, s, g, b);
    NearestRootFromNeighbours(n * Square(Pow2(g)), b);
  }

  lemma OddSquare(q: nat)
    ensures Square(q) % 2 == q % 2
  {
    var h := q / 2;
    if q % 2 == 0 {
      DoubleProduct(h, q);
    } else {
      DoubleProduct(h, q);
      MulSucc(2 * h, q);
    }
  }

  lemma DoubleProduct(h: nat, q: nat)
    ensures (2 * h) * q == 2 * (h * q)
  {
  }

  /** Squares of w half units u against the target. */
  lemma SquareOfHalves(n: nat, w: nat, u: nat)
    requires u > 0
    ensures Square((2 * w) * u) == 4 * (Square(w) * Square(u))
    ensures n < Square(w) ==> n * Square(u) < Square(w) * Square(u)
    ensures n >= Square(w) ==> n * Square(u) >= Square(w) * Square(u)
    ensures n > Square(w) ==> n * Square(u) > Square(w) * Square(u)
  {
    SquareScale(2 * w, u);
    SquareScale(w, 2);
    assert Square(2 * w) == 4 * Square(w) && Square(u) > 0;
    hide Square;
    MulCancel(n, Square(w), Square(u));
    MulAssoc(4, Square(w), Square(u));
  }

  lemma UpperMidpoint(n: nat, s: nat, g: nat, b: nat)
    requires FRAC <= s < 2 * FRAC
    requires n < Square(2 * s + 1) && b == Compose(g + 1, s)
    ensures 4 * (n * Square(Pow2(g))) < Square(Mag(b) + Mag(b + 1))
  {
    hide Square, Mag;
    var u := Pow2(g);
    MagCompose(g + 1, s);
    MagCompose(g + 1, s + 1);
    HalfUnits(s, s + 1, u);
    SquareOfHalves(n, 2 * s + 1, u);
  }

  lemma HalfUnits(x: nat, y: nat, u: nat)
    ensures x * (2 * u) + y * (2 * u) == (2 * (x + y)) * u
  {
  }

  lemma LowerMidpoint(n: nat, q: nat, s: nat, g: nat, b: nat)
    requires FRAC <= s < 2 * FRAC && b == Compose(g + 1, s)
    requires (q == 2 * s && Square(q) <= n) || (q == 2 * s - 1 && s > FRAC && Square(q) < n)
    ensures Square(Mag(b - 1) + Mag(b)) < 4 * (n * Square(Pow2(g)))
  {
    hide Square, Mag;
    var u := Pow2(g);
    MagCompose(g + 1, s);
    SquareOfHalves(n, q, u);
    if q == 2 * s {
      MagMonotone(b - 1, b);
      HalfUnits(s, s, u);
      SquareMono(Mag(b - 1) + Mag(b), (2 * q) * u);
    } else {
      MagCompose(g + 1, s - 1);
      HalfUnits(s - 1, s, u);
    }
  }

  // ----- the function -----

  /** Line 104: sqrt. A positive finite argument, normal or subnormal, gives its
      correctly rounded root. */
  method Sqrt(x: Word) returns (r: Word)
    ensures IsZero(x) || IsNaN(x) || x == INF ==> r == x
    ensures SIGN < x && !IsNaN(x) ==> r == NAN
    ensures 0 < x < INF ==> NearestRoot(RootTarget(x), r)
  {
    if IsZero(x) || IsNaN(x) || x == INF {
      return x;
    }
    if x > SIGN {
      return NAN;
    }
    hide Square, Low, Shr, Shl, And, Mag, Pow2, NearestRoot, RootTarget;
    var ix, exp := Normalize(x);
    ghost var m, k := ix, exp;
    if exp % 2 == 1 {
      ShlOne(ix);
      ix := Shl(ix, 1);
    }
    exp := exp / 2;
    RootScale(x, m, k, exp);
    var q: Word, rest: Word := Digits(ix);
    r := FinalRounding(ix, q, rest, exp);
  }

  /** Lines 143-147: the last bit of q and the remainder decide, then the
      significand and the halved exponent are put together. */
  method FinalRounding(ghost m: nat, q0: Word, rest: Word, exp: int) returns (r: Word)
    requires 2 * FRAC <= q0 <= 4 * FRAC - 2 && -537 <= exp <= 511
    requires IntegerRoot(m * Pow2(ROOT_BITS), q0)
    requires rest == 2 * (m * Pow2(ROOT_BITS) - Square(q0))
    ensures NearestRoot((m * Pow2(ROOT_BITS)) * Square(Pow2(exp + 1021)), r)
  {
    hide Square, Low, Shr, Shl, And, Mag, Pow2, NearestRoot;
    EvenRadicand(m);
    var q := q0;
    if rest != 0 {
      AndOne(q);
      q := q + And(q, 1);
    }
    Halve(q);
    var e: Word := exp - 1 + 1023;
    PlaceExpo(e);
    r := Shr(q, 1) + Shl(e, 52);
    RoundRoot(m * Pow2(ROOT_BITS), q0, exp + 1021, Shr(q, 1));
  }

  lemma EvenRadicand(m: nat)
    ensures (m * Pow2(ROOT_BITS)) % 2 == 0
  {
    Regroup(m, Pow2(53));
  }

  lemma Halve(q: nat)
    ensures Shr(q, 1) == q / 2
  {
  }

  /** Squares of representable numbers have exactly their root as result. */
  lemma SqrtOfSquare(x: Word, y: Word, r: Word)
    requires 0 < x < INF && y <= INF && RootTarget(x) == Square(Mag(y))
    requires NearestRoot(RootTarget(x), r)
    ensures r == y
  {
    NearestRootExact(y);
    NearestRootUnique(RootTarget(x), r, y);
  }
}
