/** Fused multiply-add of package math: double-word arithmetic with a sticky bit,
    and its single correct rounding. */
module Fma {
  import opened Words
  import opened Float64

  // ----- double words -----

  /** Value of the two-word number u1:u2. */
  function Wide(u1: Word, u2: Word): nat { u1 * 0x1_0000_0000_0000_0000 + u2 }

  function Zero(x: nat): nat { if x == 0 then 1 else 0 }

  function Nonzero(x: nat): nat { if x != 0 then 1 else 0 }

  /** x - 1 in 64 bits. */
  function Minus1(x: Word): Word { if x == 0 then W64 - 1 else x - 1 }

  /** Line 27: shl */
  function ShlWide(u1: Word, u2: Word, n: nat): (Word, Word)
    requires n < 128
  {
    (OrWord(OrWord(Shl(u1, n), ShrWord(u2, CountSub(64, n))), Shl(u2, CountSub(n, 64))), Shl(u2, n))
  }

  /** Line 33: shr */
  function ShrWide(u1: Word, u2: Word, n: nat): (Word, Word)
    requires n < 128
  {
    (ShrWord(u1, n), OrWord(OrWord(ShrWord(u2, n), Shl(u1, CountSub(64, n))), ShrWord(u1, CountSub(n, 64))))
  }

  /** Line 43: shrcompress */
  function ShrCompress(u1: Word, u2: Word, n: nat): (Word, Word) {
    if n == 0 then (u1, u2)
    else if n == 64 then (0, OrWord(u1, Nonzero(u2)))
    else if n >= 128 then (0, Nonzero(OrWord(u1, u2)))
    else
      var r := ShrWide(u1, u2, n);
      if n < 64 then
        (r.0, OrWord(r.1, Nonzero(And(u2, Minus1(Shl(1, n))))))
      else
        (r.0, OrWord(r.1, Nonzero(Or(And(u1, Minus1(Shl(1, n - 64))), u2))))
  }

  /** Line 65: lz */
  function LeadingZeros(u1: Word, u2: Word): nat {
    if LeadingZeros64(u1) == 64 then 64 + LeadingZeros64(u2) else LeadingZeros64(u1)
  }

  // ----- what the word operations compute -----

  lemma ShiftOut(x: Word, n: nat)
    requires n >= 64
    ensures Shl(x, n) == 0 && Shr(x, n) == 0
  {
    hide Pow2, Low, Shr;
    Pow2Values();
    Pow2Monotone(64, n);
    LowAll(x, n);
    Pow2Add(n - 64, 64);
    MulAssoc(x, Pow2(n - 64), Pow2(64));
    SplitUnique(x * Pow2(n), 64, x * Pow2(n - 64), 0);
  }

  /** A word shifted left by n keeps its low 64 - n bits. */
  lemma ShlParts(x: Word, n: nat)
    requires n <= 64
    ensures Shl(x, n) == Low(x, 64 - n) * Pow2(n)
    ensures x * Pow2(n) == Shr(x, 64 - n) * W64 + Shl(x, n)
    ensures Low(Shl(x, n), n) == 0
    ensures Shr(x, 64 - n) < Pow2(n)
  {
    hide Pow2, Low, Shr;
    var h, l, p := Shr(x, 64 - n), Low(x, 64 - n), Pow2(n);
    Pow2Values();
    Split(x, 64 - n);
    Pow2Add(64 - n, n);
    Distribute(h, Pow2(64 - n), l, p);
    MulCancel(l, Pow2(64 - n), p);
    SplitUnique(x * p, 64, h, l * p);
    SplitUnique(l * p, n, l, 0);
    ShrLess(x, 64 - n, p);
  }

  lemma ShlWideValue(u1: Word, u2: Word, n: nat)
    requires n < 128 && Wide(u1, u2) * Pow2(n) < W64 * W64
    ensures var r := ShlWide(u1, u2, n); Wide(r.0, r.1) == Wide(u1, u2) * Pow2(n)
  {
    hide Pow2, Low, Shr, Shl, Or;
    if n < 64 {
      ShlWideShort(u1, u2, n);
    } else {
      ShlWideLong(u1, u2, n);
    }
  }

  lemma ShlWideShort(u1: Word, u2: Word, n: nat)
    requires n < 64 && Wide(u1, u2) * Pow2(n) < W64 * W64
    ensures ShlWide(u1, u2, n) == (u1 * Pow2(n) + Shr(u2, 64 - n), Shl(u2, n))
    ensures Wide(u1, u2) * Pow2(n) == (u1 * Pow2(n) + Shr(u2, 64 - n)) * W64 + Shl(u2, n)
  {
    hide Pow2, Low, Shr, Shl, Or;
    var p := Pow2(n);
    ShlParts(u2, n);
    NoOverflow(u1, u2, p);
    ShlExact(u1, n);
    ShlParts(u1, n);
    OrDisjoint(Shl(u1, n), Shr(u2, 64 - n), n);
    ShiftOut(u2, CountSub(n, 64));
    OrZero(u1 * p + Shr(u2, 64 - n));
    WideTimes(u1, u2, p);
  }

  lemma NoOverflow(u1: Word, u2: Word, p: nat)
    requires Wide(u1, u2) * p < W64 * W64
    ensures u1 * p < W64
  {
    WideTimes(u1, u2, p);
  }

  lemma WideTimes(u1: Word, u2: Word, p: nat)
    ensures Wide(u1, u2) * p == (u1 * p) * W64 + u2 * p
  {
  }

  lemma ShlWideLong(u1: Word, u2: Word, n: nat)
    requires 64 <= n < 128 && Wide(u1, u2) * Pow2(n) < W64 * W64
    ensures ShlWide(u1, u2, n) == (u2 * Pow2(n - 64), 0)
    ensures Wide(u1, u2) * Pow2(n) == (u2 * Pow2(n - 64)) * W64
  {
    hide Pow2, Low, Shr, Shl, Or;
    var p := Pow2(n - 64);
    Pow2Values();
    Pow2Add(64, n - 64);
    LongFits(u1, u2, p);
    ShiftOut(u2, n);
    ShiftOut(u1, n);
    ShlExact(u2, n - 64);
    OrZero(0);
    OrSymmetric(0, u2 * p);
    OrZero(u2 * p);
    if n == 64 {
      NoShift(u2);
      OrSame(u2);
    } else {
      ShiftOut(u2, CountSub(64, n));
    }
  }

  lemma LongFits(u1: Word, u2: Word, p: nat)
    requires p > 0 && Wide(u1, u2) * (W64 * p) < W64 * W64
    ensures u1 == 0 && u2 * p < W64
    ensures Wide(u1, u2) * (W64 * p) == (u2 * p) * W64
  {
    MulCancel(Wide(u1, u2) * p, W64, W64);
    MulAssoc(Wide(u1, u2), p, W64);
    MulMono(1, p, Wide(u1, u2));
  }

  /** q with its lowest bit set if anything was dropped below it. */
  function StickyBit(q: nat, r: nat): nat {
    if r != 0 && q % 2 == 0 then q + 1 else q
  }

  /** u shifted right by n, the dropped bits collected in the lowest one. */
  function Sticky(u: nat, n: nat): nat {
    StickyBit(Shr(u, n), Low(u, n))
  }

  lemma ShrWideShort(u1: Word, u2: Word, n: nat)
    requires 0 < n < 64
    ensures var r := ShrWide(u1, u2, n); Shr(Wide(u1, u2), n) == Wide(r.0, r.1)
    ensures Low(Wide(u1, u2), n) == Low(u2, n)
  {
    hide Pow2, Low, Shr, Shl, Or, Wide;
    var p, d := Pow2(n), Pow2(64 - n);
    Pow2Values();
    Pow2Add(64 - n, n);
    Split(u1, n);
    Split(u2, n);
    ShlParts(u1, 64 - n);
    ShrLess(u2, n, d);
    OrSymmetric(Shr(u2, n), Shl(u1, 64 - n));
    OrDisjoint(Shl(u1, 64 - n), Shr(u2, n), 64 - n);
    ShiftOut(u1, CountSub(n, 64));
    var r := ShrWide(u1, u2, n);
    assert r == (Shr(u1, n), Shl(u1, 64 - n) + Shr(u2, n)) by { OrZero(Shl(u1, 64 - n) + Shr(u2, n)); }
    SplitWords(u1, u2, Shr(u1, n), Low(u1, n), Shr(u2, n), Low(u2, n), p, d, r.1);
    SplitUnique(Wide(u1, u2), n, Wide(r.0, r.1), Low(u2, n));
  }

  lemma SplitWords(u1: Word, u2: Word, h1: Word, l1: nat, h2: nat, l2: nat, p: nat, d: nat, r: Word)
    requires d * p == W64 && u1 == h1 * p + l1 && u2 == h2 * p + l2 && r == l1 * d + h2
    ensures Wide(u1, u2) == Wide(h1, r) * p + l2
  {
    assert (l1 * d) * p == l1 * W64 by { MulAssoc(l1, d, p); }
    assert (h1 * p) * W64 == (h1 * W64) * p;
    assert Wide(h1, r) * p == (h1 * W64) * p + (l1 * d) * p + h2 * p by { Expand(h1 * W64, l1 * d, h2, p); }
  }

  lemma Expand(a: int, b: int, c: int, p: int)
    ensures (a + (b + c)) * p == a * p + b * p + c * p
  {
  }

  lemma ShrWideLong(u1: Word, u2: Word, n: nat)
    requires 64 < n < 128
    ensures ShrWide(u1, u2, n) == (0, Shr(u1, n - 64))
    ensures Shr(Wide(u1, u2), n) == Shr(u1, n - 64)
    ensures Low(Wide(u1, u2), n) == Low(u1, n - 64) * W64 + u2
  {
    hide Pow2, Low, Shr, Shl, Or;
    var k := n - 64;
    var h, l, p := Shr(u1, k), Low(u1, k), Pow2(k);
    Pow2Values();
    Pow2Add(k, 64);
    Split(u1, k);
    ShiftOut(u1, n);
    ShiftOut(u2, n);
    ShiftOut(u1, CountSub(64, n));
    OrZero(0);
    OrSymmetric(0, h);
    OrZero(h);
    Distribute(h, p, l, W64);
    MulMono(l + 1, p, W64);
    SplitUnique(Wide(u1, u2), n, h, l * W64 + u2);
  }

  lemma LowMask(x: Word, n: nat)
    requires n < 64
    ensures And(x, Minus1(Shl(1, n))) == Low(x, n)
  {
    hide Pow2, Low, Shr, Shl, And;
    Pow2Values();
    Pow2Monotone(n, 63);
    ShlExact(1, n);
    AndMask(x, n);
  }

  lemma OrNonzeroBit(q: nat, x: nat, r: nat)
    requires x == 0 <==> r == 0
    ensures Or(q, Nonzero(x)) == StickyBit(q, r)
  {
    OrZero(q);
    OrOne(q);
  }

  lemma WideParity(r1: Word, r2: Word)
    ensures Wide(r1, r2) % 2 == r2 % 2
    ensures r2 % 2 == 0 ==> r2 + 1 < W64
  {
    var h: nat := r1 * 0x8000_0000_0000_0000;
    assert Wide(r1, r2) == 2 * h + r2;
    assert r2 % 2 == 0 ==> r2 != W64 - 1;
  }

  lemma StickyWord(r1: Word, r2: Word, r: nat)
    ensures StickyBit(r2, r) < W64
    ensures Wide(r1, StickyBit(r2, r)) == StickyBit(Wide(r1, r2), r)
  {
    WideParity(r1, r2);
    assert r2 + 1 < W64 ==> Wide(r1, r2 + 1) == Wide(r1, r2) + 1;
    hide Wide;
  }

  /** Lines 39-42: shrcompress is a shift with a sticky bit. */
  lemma ShrCompressValue(u1: Word, u2: Word, n: nat)
    ensures var r := ShrCompress(u1, u2, n); Wide(r.0, r.1) == Sticky(Wide(u1, u2), n)
  {
    hide Pow2, Low, Shr, Shl, Or, And, Wide, StickyBit;
    var u := Wide(u1, u2);
    if n == 0 {
      StickyNone(u);
    } else if n == 64 {
      WideHalves(u1, u2);
      OrNonzeroBit(u1, u2, u2);
      WideLow(OrWord(u1, Nonzero(u2)));
    } else if n >= 128 {
      WideOut(u1, u2, n);
      OrNonzero(u1, u2);
      StickyOut(Or(u1, u2), u);
      WideLow(Nonzero(OrWord(u1, u2)));
    } else if n < 64 {
      ShrWideShort(u1, u2, n);
      LowMask(u2, n);
      var r := ShrWide(u1, u2, n);
      OrNonzeroBit(r.1, Low(u2, n), Low(u2, n));
      StickyWord(r.0, r.1, Low(u2, n));
    } else {
      ShrWideLong(u1, u2, n);
      LowMask(u1, n - 64);
      var r := ShrWide(u1, u2, n);
      var l := Low(u1, n - 64);
      OrNonzero(l, u2);
      OrNonzeroBit(r.1, Or(l, u2), l * W64 + u2);
      WideLow(Shr(u1, n - 64));
      StickyWord(0, r.1, l * W64 + u2);
    }
  }

  lemma StickyNone(u: nat)
    ensures Sticky(u, 0) == u
  {
  }

  lemma WideLow(x: Word)
    ensures Wide(0, x) == x
  {
  }

  lemma WideHalves(u1: Word, u2: Word)
    ensures Shr(Wide(u1, u2), 64) == u1 && Low(Wide(u1, u2), 64) == u2
  {
    hide Pow2, Low, Shr;
    Pow2Values();
    SplitUnique(Wide(u1, u2), 64, u1, u2);
  }

  lemma WideOut(u1: Word, u2: Word, n: nat)
    requires n >= 128
    ensures Shr(Wide(u1, u2), n) == 0 && Low(Wide(u1, u2), n) == Wide(u1, u2)
    ensures Wide(u1, u2) == 0 <==> u1 == 0 && u2 == 0
  {
    hide Pow2, Low, Shr;
    Pow2Values();
    Pow2Add(64, 64);
    Pow2Monotone(128, n);
    LowAll(Wide(u1, u2), n);
  }

  lemma StickyOut(x: nat, u: nat)
    requires x == 0 <==> u == 0
    ensures Nonzero(x) == StickyBit(0, u)
  {
  }

  // ----- soundness of the sticky bit -----

  /** m stands for the exact value e in units u: either it is e, or it is odd and
      e lies strictly between its two even neighbours. */
  ghost predicate Sound(e: nat, m: nat, u: nat) {
    e == m * u || (m % 2 == 1 && m * u < e + u && e < m * u + u)
  }

  /** A further shift with a sticky bit keeps the number sound. */
  lemma SoundSticky(e: nat, m: nat, u: nat, n: nat)
    requires u > 0 && Sound(e, m, u)
    ensures Sound(e, Sticky(m, n), Pow2(n) * u)
  {
    hide Shr, Low, Pow2, Sound;
    var q, r, p := Shr(m, n), Low(m, n), Pow2(n);
    Split(m, n);
    SoundRange(e, m, u);
    if n == 0 {
      StickyNone(m);
      PowZero(u);
    } else {
      PowEven(n);
      EvenProduct(q, p);
      Distribute(q, p, r, u);
      MulMono(r + 1, p, u);
      MulSucc(r, u);
      if r > 0 { MulMono(1, r, u); }
      SoundBetween(e, q, Sticky(m, n), p * u);
    }
  }

  lemma SoundRange(e: nat, m: nat, u: nat)
    requires u > 0 && Sound(e, m, u)
    ensures m * u < e + u && e < m * u + u && (m % 2 == 0 ==> e == m * u)
  {
  }

  lemma SoundBetween(e: nat, q: nat, s: nat, u: nat)
    requires u > 0 && q * u <= e < q * u + u
    requires s == if e == q * u then q else q + 1 - q % 2
    ensures Sound(e, s, u)
  {
    MulSucc(q, u);
  }

  lemma PowZero(u: nat)
    ensures Pow2(0) * u == u
  {
  }

  lemma PowEven(n: nat)
    requires n > 0
    ensures Pow2(n) % 2 == 0
  {
  }

  lemma EvenProduct(q: nat, p: nat)
    requires p % 2 == 0
    ensures (q * p) % 2 == 0
  {
    assert q * p == 2 * (q * (p / 2));
  }

  lemma SoundAdd(f: nat, s: nat, p: nat, u: nat)
    requires Sound(f, s, u) && p % 2 == 0
    ensures Sound(p * u + f, p + s, u)
  {
    assert (p + s) * u == p * u + s * u;
  }

  lemma SoundSub(f: nat, s: nat, p: nat, u: nat)
    requires u > 0 && Sound(f, s, u) && p % 2 == 0 && p >= s
    ensures p * u >= f
    ensures Sound(p * u - f, p - s, u)
    ensures p > s ==> p * u > f
  {
    assert (p - s) * u == p * u - s * u;
    MulMono(s, p, u);
    if p > s { MulStrict(s, p, u); }
    if f != s * u {
      MulMono(s + 1, p, u);
      MulSucc(s, u);
    }
  }

  // ----- operands -----

  const B62: nat := 0x4000_0000_0000_0000
  const B126: nat := 0x4000_0000_0000_0000_0000_0000_0000_0000

  /** Exact values are counted in units of 2^-2374, fine enough for every exponent
      that occurs. A double word at exponent e weighs Weight(e) such units. */
  ghost function Weight(e: int): nat
    requires e >= -1225
  {
    Pow2(e + 1225)
  }

  /** Line 76: split */
  function SplitFloat(b: Word): (r: (nat, int, Word))
    requires 0 < Abs(b) < INF
  {
    SplitFloatFields(b);
    var sign := Shr(b, 63);
    var exp := And(Shr(b, 52), 2047);
    var mantissa: Word := And(b, FRAC - 1);
    if exp == 0 then
      var shift := LeadingZeros64(mantissa) - 11;
      (sign, 1 - shift, Shl(mantissa, shift))
    else
      (sign, exp, OrWord(mantissa, FRAC))
  }

  lemma SplitFloatFields(b: Word)
    ensures Shr(b, 63) == SignBit(b)
    ensures And(Shr(b, 52), 2047) == Abs(b) / 0x10_0000_0000_0000
    ensures And(b, FRAC - 1) == Abs(b) % 0x10_0000_0000_0000
    ensures And(b, FRAC - 1) < FRAC
    ensures LeadingZeros64(And(b, FRAC - 1)) >= 12
  {
    hide Pow2, Shr, Low, And, Len;
    Pow2Values();
    SplitUnique(b, 63, SignBit(b), Abs(b));
    Fields(b);
    AndMask(b, 52);
    AndMask(Shr(b, 52), 11);
    SplitUnique(Shr(b, 52), 11, SignBit(b), Abs(b) / 0x10_0000_0000_0000);
    LenAtMost(And(b, FRAC - 1), 52);
  }

  /** split gives a normalized significand and the exponent that goes with it. */
  lemma SplitFloatValue(b: Word)
    requires 0 < Abs(b) < INF
    ensures var (s, e, m) := SplitFloat(b);
      && s == SignBit(b) && -51 <= e <= 2046 && FRAC <= m < 2 * FRAC
      && Mag(Abs(b)) * Pow2(52) == m * Pow2(e + 51)
  {
    hide Pow2, Shr, Low, And, Or, Shl, Len, Mag;
    SplitFloatFields(b);
    var a := Abs(b);
    var f := a % 0x10_0000_0000_0000;
    if a < FRAC {
      SubnormalShift(f, LeadingZeros64(f) - 11);
      assert Mag(a) == a by { SmallMag(a); }
    } else {
      SetHidden(f);
      var e, m := MagParts(a);
      assert e == a / 0x10_0000_0000_0000 - 1 && m == FRAC + f;
      Pow2Add(e, 52);
      MulAssoc(m, Pow2(e), Pow2(52));
    }
  }

  lemma SubnormalShift(f: nat, k: nat)
    requires 0 < f < FRAC && k == LeadingZeros64(f) - 11
    ensures 1 <= k <= 52
    ensures FRAC <= Shl(f, k) < 2 * FRAC
    ensures f * Pow2(52) == Shl(f, k) * Pow2(52 - k)
  {
    hide Pow2, Shl, Shr, Low, Len;
    Pow2Values();
    var l := Len(f);
    LenBounds(f);
    LenAtMost(f, 52);
    Pow2Add(l - 1, k);
    Pow2Add(l, k);
    MulMono(Pow2(l - 1), f, Pow2(k));
    MulStrict(f, Pow2(l), Pow2(k));
    ShlExact(f, k);
    Pow2Add(k, 52 - k);
    MulAssoc(f, Pow2(k), Pow2(52 - k));
  }

  /** A normalized double word at exponent e whose exact value is v. */
  ghost predicate Normal(v: nat, e: int, u1: Word, u2: Word) {
    && e >= -1225
    && B126 <= Wide(u1, u2) < 2 * B126
    && Wide(u1, u2) % 2 == 0
    && v == Wide(u1, u2) * Weight(e)
  }

  /** Lines 116-128: the product as a normalized double word. */
  method Product(xe: int, xm: Word, ye: int, ym: Word, ghost mx: nat, ghost my: nat)
    returns (pe: int, pm1: Word, pm2: Word)
    requires -51 <= xe <= 2046 && FRAC <= xm < 2 * FRAC && mx * Pow2(52) == xm * Pow2(xe + 51)
    requires -51 <= ye <= 2046 && FRAC <= ym < 2 * FRAC && my * Pow2(52) == ym * Pow2(ye + 51)
    ensures Normal((mx * my) * Pow2(226), pe, pm1, pm2)
    ensures -1125 <= pe <= 3070
  {
    hide Pow2, Shl, Shr, Low, And, Wide, Weight, Normal, ShlWide;
    pe := xe + ye - 1023 + 1;
    ShiftOperands(xm, ym);
    var p := Mul64(Shl(xm, 10), Shl(ym, 11));
    pm1, pm2 := p.0, p.1;
    ghost var w := xm * ym * 0x20_0000;
    WideOf(p);
    ProductRange(xm, ym, w);
    ProductExact(xe, xm, ye, ym, mx, my, w);
    TopBit(pm1, pm2);
    NormalizeProduct((mx * my) * Pow2(226), pe, pm1, pm2);
    var is62zero := And(Shr(Not(pm1), 62), 1);
    p := ShlWide(pm1, pm2, is62zero);
    pm1, pm2 := p.0, p.1;
    pe := pe - is62zero;
  }

  lemma NormalizeProduct(v: nat, pe: int, u1: Word, u2: Word)
    requires pe > -1225 && B126 <= 2 * Wide(u1, u2) && Wide(u1, u2) < 2 * B126 && Wide(u1, u2) % 2 == 0
    requires v == Wide(u1, u2) * Weight(pe)
    ensures var z := if Wide(u1, u2) < B126 then 1 else 0; var r := ShlWide(u1, u2, z);
      Normal(v, pe - z, r.0, r.1)
  {
    hide Pow2, Wide, Weight, ShlWide;
    var w := Wide(u1, u2);
    PowBit(0);
    PowBit(1);
    DoubleWeight(w, pe);
    if w < B126 {
      assert w * Pow2(1) == w * 2;
      ShlWideValue(u1, u2, 1);
    } else {
      assert w * Pow2(0) == w * 1;
      ShlWideValue(u1, u2, 0);
    }
  }

  lemma PowBit(z: nat)
    ensures z == 0 ==> Pow2(z) == 1
    ensures z == 1 ==> Pow2(z) == 2
  {
  }

  lemma WideOf(p: (Word, Word))
    ensures Wide(p.0, p.1) == p.0 * W64 + p.1
  {
  }

  lemma ShiftOperands(xm: Word, ym: Word)
    requires xm < 2 * FRAC && ym < 2 * FRAC
    ensures Shl(xm, 10) * Shl(ym, 11) == xm * ym * 0x20_0000
  {
    hide Pow2, Shl, Shr, Low;
    Pow2Small();
    ShlExact(xm, 10);
    ShlExact(ym, 11);
    assert (xm * 1024) * (ym * 2048) == xm * ym * 0x20_0000;
  }

  lemma ProductRange(xm: nat, ym: nat, w: nat)
    requires FRAC <= xm < 2 * FRAC && FRAC <= ym < 2 * FRAC && w == xm * ym * 0x20_0000
    ensures B126 <= 2 * w && w < 2 * B126 && w % 2 == 0
  {
    MulMono(FRAC, xm, ym);
    MulMono(FRAC, ym, FRAC);
    MulMono(xm, 2 * FRAC - 1, ym);
    MulMono(ym, 2 * FRAC - 1, 2 * FRAC - 1);
  }

  lemma ProductExact(xe: int, xm: nat, ye: int, ym: nat, mx: nat, my: nat, w: nat)
    requires -51 <= xe && mx * Pow2(52) == xm * Pow2(xe + 51)
    requires -51 <= ye && my * Pow2(52) == ym * Pow2(ye + 51)
    requires w == xm * ym * 0x20_0000
    ensures (mx * my) * Pow2(226) == w * Weight(xe + ye - 1022)
  {
    hide Pow2;
    var a, b, c := Pow2(52), Pow2(xe + 51), Pow2(ye + 51);
    Pow2Add(52, 52);
    Pow2Add(104, 122);
    Pow2Add(xe + 51, ye + 51);
    Pow2Add(xe + ye + 102, 101);
    Pow2Add(21, 101);
    assert Pow2(21) == 0x20_0000 by { Pow2Small(); Pow2Add(11, 10); }
    CrossProduct(mx, a, my, a);
    CrossProduct(xm, b, ym, c);
    assert (mx * my) * (a * a) == (xm * ym) * (b * c);
    MulAssoc(mx * my, a * a, Pow2(122));
    MulAssoc(xm * ym, b * c, Pow2(122));
    Swap3(xm * ym, b * c, 0x20_0000, Pow2(101));
  }

  lemma CrossProduct(p: int, q: int, r: int, s: int)
    ensures (p * q) * (r * s) == (p * r) * (q * s)
  {
  }

  lemma Swap3(x: int, y: int, c: int, d: int)
    ensures x * (y * (c * d)) == (x * c) * (y * d)
  {
  }

  /** Bit 62 of the upper word tells whether the product is normalized. */
  lemma TopBit(u1: Word, u2: Word)
    requires B126 <= 2 * Wide(u1, u2) && Wide(u1, u2) < 2 * B126
    ensures And(Shr(Not(u1), 62), 1) == if Wide(u1, u2) < B126 then 1 else 0
  {
    hide Pow2, Shr, Low, And;
    Pow2Values();
    var b := if u1 < B62 then 3 else 2;
    SplitUnique(Not(u1), 62, b, Not(u1) - b * B62);
    AndOne(b);
  }

  lemma DoubleWeight(w: nat, e: int)
    requires e > -1225
    ensures (w * 2) * Weight(e - 1) == w * Weight(e)
    ensures (w * 1) * Weight(e) == w * Weight(e)
  {
    assert Pow2(e + 1225) == 2 * Pow2(e + 1224);
    Regroup(w, Pow2(e + 1224));
  }

  // ----- alignment -----

  /** Dropping bits of an even bound cannot reach it, sticky bit or not. */
  lemma StickyBelow(u: nat, n: nat, b: nat)
    requires u < b * Pow2(n) && b % 2 == 0
    ensures Sticky(u, n) < b
  {
    hide Pow2, Shr, Low;
    ShrLess(u, n, b);
  }

  /** Lines 135-136: the smaller operand, shifted to the exponent of the larger one. */
  lemma Align(v: nat, e: int, u1: Word, u2: Word, n: nat)
    requires Normal(v, e, u1, u2)
    ensures var r := ShrCompress(u1, u2, n); var z := Wide(r.0, r.1);
      && Sound(v, z, Weight(e + n))
      && z < 2 * B126
      && (n == 0 ==> z == Wide(u1, u2))
      && (n > 0 ==> z < B126)
      && (2 * z <= B126 || v == z * Weight(e + n))
  {
    hide Pow2, Shr, Low, Wide, ShrCompress, Sticky;
    var u := Wide(u1, u2);
    ShrCompressValue(u1, u2, n);
    Pow2Add(n, e + 1225);
    SoundSticky(v, u, Weight(e), n);
    if n == 0 {
      StickyNone(u);
    } else if n == 1 {
      AlignByOne(u, Weight(e));
      Pow2Small();
      StickyBelow(u, 1, B126);
    } else {
      Pow2Monotone(2, n);
      Pow2Small();
      MulMono(4, Pow2(n), B126 / 2);
      StickyBelow(u, n, B126 / 2);
    }
  }

  lemma AlignByOne(u: nat, w: nat)
    requires u % 2 == 0
    ensures u * w == Sticky(u, 1) * (Pow2(1) * w)
  {
    assert Low(u, 1) == 0 && Shr(u, 1) == u / 2 && Pow2(1) == 2;
    assert u * w == (u / 2) * (2 * w) by { Regroup(u / 2, w); }
  }

  // ----- sum and difference of the significands -----

  /** A nonzero result: a 63-bit significand with a sound sticky bit. */
  ghost predicate Result(v: nat, e: int, m: Word) {
    && e >= -1290
    && B62 <= m < 2 * B62
    && Sound(v, m, Pow2(e + 1290))
  }

  function AddWide(p1: Word, p2: Word, z1: Word, z2: Word): (Word, Word) {
    var lo := Add64(p2, z2, 0);
    (Add64(p1, z1, lo.1).0, lo.0)
  }

  function SubWide(p1: Word, p2: Word, z1: Word, z2: Word): (Word, Word) {
    var lo := Sub64(p2, z2, 0);
    (Sub64(p1, z1, lo.1).0, lo.0)
  }

  lemma AddWideValue(p1: Word, p2: Word, z1: Word, z2: Word)
    requires Wide(p1, p2) + Wide(z1, z2) < 4 * B126
    ensures var r := AddWide(p1, p2, z1, z2); Wide(r.0, r.1) == Wide(p1, p2) + Wide(z1, z2)
  {
  }

  lemma SubWideValue(p1: Word, p2: Word, z1: Word, z2: Word)
    requires Wide(p1, p2) >= Wide(z1, z2)
    ensures var r := SubWide(p1, p2, z1, z2); Wide(r.0, r.1) == Wide(p1, p2) - Wide(z1, z2)
  {
  }

  lemma HighBit(u1: Word, u2: Word)
    ensures Shr(u1, 63) == if Wide(u1, u2) < 2 * B126 then 0 else 1
    ensures Shr(Not(u1), 63) == if Wide(u1, u2) < 2 * B126 then 1 else 0
  {
    hide Pow2, Shr, Low;
    Pow2Values();
    var b := if u1 < SIGN then 0 else 1;
    SplitUnique(u1, 63, b, u1 - b * SIGN);
    SplitUnique(Not(u1), 63, 1 - b, Not(u1) - (1 - b) * SIGN);
  }

  /** Compressing a double word whose value fits leaves the upper word empty. */
  lemma CompressToWord(u1: Word, u2: Word, n: nat)
    requires B62 * Pow2(n) <= Wide(u1, u2) < (2 * B62) * Pow2(n)
    ensures ShrCompress(u1, u2, n).1 == Sticky(Wide(u1, u2), n)
    ensures B62 <= Sticky(Wide(u1, u2), n) < 2 * B62
  {
    hide Pow2, Shr, Low, ShrCompress;
    ShrCompressValue(u1, u2, n);
    StickyBelow(Wide(u1, u2), n, 2 * B62);
    ShrAtLeast(Wide(u1, u2), n, B62);
  }

  /** Lines 141-145 */
  method AddAligned(pe: int, p1: Word, p2: Word, z1: Word, z2: Word, ghost vp: nat, ghost vz: nat)
    returns (e: int, m: Word)
    requires Normal(vp, pe, p1, p2) && Sound(vz, Wide(z1, z2), Weight(pe)) && Wide(z1, z2) < 2 * B126
    ensures Result(vp + vz, e, m) && pe - 1 <= e <= pe
  {
    hide Pow2, Shr, Low, ShrCompress, Wide, Sound, Sticky, AddWide;
    AddWideValue(p1, p2, z1, z2);
    SoundAdd(vz, Wide(z1, z2), Wide(p1, p2), Weight(pe));
    var s := AddWide(p1, p2, z1, z2);
    HighBit(s.0, s.1);
    e := pe - Shr(Not(s.0), 63);
    var n := 64 + Shr(s.0, 63);
    m := ShrCompress(s.0, s.1, n).1;
    CompressRange(Wide(s.0, s.1), n);
    CompressToWord(s.0, s.1, n);
    SoundSticky(vp + vz, Wide(s.0, s.1), Weight(pe), n);
    Pow2Add(n, pe + 1225);
  }

  lemma CompressRange(w: nat, n: nat)
    requires B126 <= w < 4 * B126 && n == if w < 2 * B126 then 64 else 65
    ensures B62 * Pow2(n) <= w < (2 * B62) * Pow2(n)
  {
    hide Pow2;
    Pow2Values();
    assert Pow2(65) == 2 * W64 by { Pow2Add(64, 1); }
  }

  lemma LeadingZerosValue(u1: Word, u2: Word)
    ensures LeadingZeros(u1, u2) == 128 - Len(Wide(u1, u2))
  {
    hide Pow2, Len;
    Pow2Values();
    if u1 == 0 {
    } else {
      LenBounds(u1);
      Pow2Add(Len(u1), 64);
      Pow2Add(Len(u1) - 1, 64);
      LenUnique(Wide(u1, u2), Len(u1) + 64);
    }
  }

  lemma StickyShift(x: nat, k: nat, n: nat)
    ensures Sticky(x * Pow2(k), n + k) == Sticky(x, n)
  {
    hide Pow2, Shr, Low;
    var q, r, p := Shr(x, n), Low(x, n), Pow2(k);
    Split(x, n);
    Pow2Add(n, k);
    Distribute(q, Pow2(n), r, p);
    MulCancel(r, Pow2(n), p);
    MulCancel(0, r, p);
    SplitUnique(x * p, n + k, q, r * p);
  }

  /** Shifting a difference left until its leading bit is at position 126. */
  lemma LeadingShift(w: nat)
    requires 0 < w < 2 * B126
    ensures 1 <= Len(w) <= 127
    ensures B126 <= w * Pow2(127 - Len(w)) < 2 * B126
    ensures 2 * w >= B126 ==> Len(w) >= 126
  {
    hide Pow2, Len;
    var l := Len(w);
    LenBounds(w);
    assert Pow2(126) == B126 && Pow2(127) == 2 * B126 by {
      Pow2Values(); Pow2Add(62, 64); Pow2Add(63, 64);
    }
    LenAtMost(w, 127);
    Pow2Add(l - 1, 127 - l);
    Pow2Add(l, 127 - l);
    MulMono(Pow2(l - 1), w, Pow2(127 - l));
    MulStrict(w, Pow2(l), Pow2(127 - l));
    if 2 * w >= B126 && l < 126 {
      Pow2Monotone(l, 125);
      Pow2Small();
      Pow2Add(125, 1);
    }
  }

  /** Lines 147-154: the difference may cancel; what is shifted in is exact,
      because bits are dropped in the alignment only when at most one can cancel. */
  method SubAligned(pe: int, p1: Word, p2: Word, z1: Word, z2: Word, ghost vp: nat, ghost vz: nat)
    returns (e: int, m: Word)
    requires Normal(vp, pe, p1, p2) && Sound(vz, Wide(z1, z2), Weight(pe)) && pe >= -51
    requires Wide(z1, z2) <= Wide(p1, p2)
    requires 2 * Wide(z1, z2) <= B126 || vz == Wide(z1, z2) * Weight(pe)
    ensures vp >= vz
    ensures vp == vz ==> m == 0 && e == pe - 128
    ensures vp > vz ==> Result(vp - vz, e, m) && pe - 127 <= e < pe
  {
    hide Pow2, Shr, Low, Wide, Sound, Sticky, SubWide, LeadingZeros, Weight, Result, ShlWide, Len;
    ghost var w := Wide(p1, p2) - Wide(z1, z2);
    assert Weight(pe) > 0 by { WeightPositive(pe); }
    SubWideValue(p1, p2, z1, z2);
    SoundSub(vz, Wide(z1, z2), Wide(p1, p2), Weight(pe));
    var s := SubWide(p1, p2, z1, z2);
    LeadingZerosValue(s.0, s.1);
    var nz := LeadingZeros(s.0, s.1);
    e := pe - nz;
    if w == 0 {
      LenZero();
      ShlOfZero(s.0, s.1, 127);
    } else {
      LeadingShift(w);
      ShlWideValue(s.0, s.1, nz - 1);
      NormalizeDifference(vp - vz, w, pe);
    }
    var t := ShlWide(s.0, s.1, nz - 1);
    OrNonzeroBit(t.0, t.1, t.1);
    m := OrWord(t.0, Nonzero(t.1));
    WideSticky(t.0, t.1);
  }

  lemma WeightPositive(e: int)
    requires e >= -1225
    ensures Weight(e) > 0
  {
  }

  lemma LenZero()
    ensures Len(0) == 0
  {
  }

  lemma WideSticky(h: Word, l: Word)
    ensures StickyBit(h, l) == Sticky(Wide(h, l), 64)
    ensures Wide(h, l) == 0 ==> StickyBit(h, l) == 0
  {
    hide Wide;
    WideHalves(h, l);
    WideOut(h, l, 128);
  }

  lemma ShlOfZero(u1: Word, u2: Word, n: nat)
    requires Wide(u1, u2) == 0 && n < 128
    ensures var r := ShlWide(u1, u2, n); Wide(r.0, r.1) == 0
  {
    hide ShlWide, Pow2;
    ShlWideValue(0, 0, n);
  }

  lemma NormalizeDifference(v: nat, w: nat, pe: int)
    requires 0 < w < 2 * B126 && pe >= -51 && Sound(v, w, Weight(pe))
    requires 2 * w >= B126 || v == w * Weight(pe)
    ensures 1 <= Len(w) <= 127
    ensures var k := 127 - Len(w); var m := Sticky(w * Pow2(k), 64);
      B62 <= m < 2 * B62 && Result(v, pe - (k + 1), m)
  {
    hide Pow2, Shr, Low, Sticky, Len;
    LeadingShift(w);
    var k := 127 - Len(w);
    var t, e := w * Pow2(k), pe - (k + 1);
    Pow2Values();
    assert W64 * B62 == B126;
    StickyBelow(t, 64, 2 * B62);
    StickyAbove(t, 64, B62);
    if v == w * Weight(pe) {
      Pow2Add(k, e + 1226);
      MulAssoc(w, Pow2(k), Pow2(e + 1226));
      SoundSticky(v, t, Pow2(e + 1226), 64);
      Pow2Add(64, e + 1226);
    } else {
      StickyShift(w, k, 64 - k);
      SoundSticky(v, w, Weight(pe), 64 - k);
      Pow2Add(64 - k, pe + 1225);
    }
  }

  lemma StickyAbove(u: nat, n: nat, b: nat)
    requires u >= b * Pow2(n)
    ensures Sticky(u, n) >= b
  {
    hide Pow2, Shr, Low;
    ShrAtLeast(u, n, b);
  }

  // ----- the single rounding -----

  /** Line 167: rounding off ten bits, ties to even. */
  function RoundTenBits(m: Word): nat
    requires m < SIGN
  {
    And(Shr(m + 512, 10), Not(Zero(Xor(And(m, 1023), 512))))
  }

  lemma RoundTenBitsValue(m: Word)
    requires m < SIGN
    ensures RoundTenBits(m) == RoundUnit(Shr(m, 10), Low(m, 10), 1024)
  {
    hide Pow2, Shr, Low, And, Xor;
    var q, r := Shr(m, 10), Low(m, 10);
    TenBits(m, q, r);
    XorZero(r, 512);
    if r < 512 {
      TenBits(m + 512, q, r + 512);
    } else {
      TenBits(m + 512, q + 1, r - 512);
    }
    ShrAtMost(m + 512, 10);
    ClearOdd(Shr(m + 512, 10));
  }

  lemma TenBits(m: Word, q: nat, r: nat)
    ensures And(m, 1023) == Low(m, 10)
    ensures q == Shr(m, 10) && r == Low(m, 10) <==> m == q * 1024 + r && r < 1024
  {
    hide Shr, Low, And;
    Pow2Small();
    Split(m, 10);
    AndMask(m, 10);
    if m == q * 1024 + r && r < 1024 { SplitUnique(m, 10, q, r); }
  }

  /** Masking with ^0 and ^1. */
  lemma ClearOdd(h: Word)
    ensures And(h, Not(0)) == h && And(h, Not(1)) == h - h % 2
  {
    hide And, Low, Shr, Pow2;
    Pow2Values();
    AndNotOne(h);
    AndMask(h, 64);
    LowAll(h, 64);
  }

  /** Rounding a sound significand rounds the exact value it stands for: the ten
      bits below the rounding position keep the sticky bit away from a tie. */
  lemma RoundSound(v: nat, m: nat, u: nat, x: nat, d: nat)
    requires u > 0 && d > 0 && Sound(v, m, u) && 1024 * u == Pow2(x) * d
    requires m < SIGN && (x > 0 ==> m >= B62)
    ensures BetweenMidpoints(v, d, Compose(x, RoundUnit(Shr(m, 10), Low(m, 10), 1024)))
  {
    hide Pow2, Shr, Low, BetweenMidpoints;
    var q, r := Shr(m, 10), Low(m, 10);
    Pow2Small();
    Split(m, 10);
    var w := q * (1024 * u);
    assert m * u == w + r * u by { Distribute(q, 1024, r, u); }
    RestPosition(v - w, m, q, r, u, v, w);
    RoundPosition(v, d, x, q, 1024 * u, v - w, Compose(x, RoundUnit(q, r, 1024)));
  }

  lemma RestPosition(rest: int, m: nat, q: nat, r: nat, u: nat, v: nat, w: nat)
    requires u > 0 && Sound(v, m, u) && m == q * 1024 + r && r < 1024
    requires m * u == w + r * u && rest == v - w
    ensures 0 <= rest < 1024 * u
    ensures RoundUnit(q, rest, 1024 * u) == RoundUnit(q, r, 1024)
  {
    if r <= 511 { MulMono(r, 511, u); }
    if r >= 513 { MulMono(513, r, u); }
    if r >= 1 { MulMono(1, r, u); }
    MulMono(r, 1023, u);
    assert m % 2 == r % 2;
    RestAgainstHalf(q, r, r * u, u, rest);
  }

  lemma RestAgainstHalf(q: nat, r: nat, at: nat, u: nat, rest: int)
    requires u > 0 && at <= 1023 * u && (r == 0 ==> at == 0) && (r >= 1 ==> at >= u)
    requires (r <= 511 ==> at <= 511 * u) && (r == 512 ==> at == 512 * u) && (r >= 513 ==> at >= 513 * u)
    requires rest == at || (r % 2 == 1 && at < rest + u && rest < at + u)
    ensures 0 <= rest < 1024 * u
    ensures RoundUnit(q, rest, 1024 * u) == RoundUnit(q, r, 1024)
  {
  }

  /** Line 164: the shift into the subnormal range. */
  function Denormalize(m: Word, n: nat): Word {
    OrWord(ShrWord(m, n), Nonzero(And(m, Minus1(Shl(1, n)))))
  }

  lemma DenormalizeValue(m: Word, n: nat)
    ensures Denormalize(m, n) == Sticky(m, n)
  {
    hide Pow2, Shr, Low, And, Or, Shl, StickyBit;
    if n < 64 {
      LowMask(m, n);
    } else {
      Pow2Values();
      Pow2Monotone(64, n);
      ShiftOut(1, n);
      AndMask(m, 64);
      LowAll(m, 64);
      LowAll(m, n);
    }
    OrNonzeroBit(Shr(m, n), And(m, Minus1(Shl(1, n))), Low(m, n));
  }

  /** -int32(x) in two's complement. */
  function MinusInt32(x: nat): nat
    requires x <= 1
  {
    if x == 0 then 0 else 0xFFFF_FFFF
  }

  lemma MaskExpo(pe: nat, b: nat)
    requires pe <= 2047 && b <= 1
    ensures And(pe, MinusInt32(b)) == if b == 0 then 0 else pe
  {
    hide Pow2, And, Low, Shr;
    Pow2Small();
    AndZero(pe);
    assert Pow2(32) == 0x1_0000_0000 by { Pow2Add(8, 8); Pow2Add(16, 16); }
    AndMask(pe, 32);
    LowAll(pe, 32);
  }

  lemma PlaceSign(s: nat)
    requires s <= 1
    ensures Shl(s, 63) == s * SIGN
    ensures Or(Shl(s, 63), INF) == WithSign(s, INF)
  {
    hide Pow2, Shl, Or, Low, Shr;
    Pow2Values();
    ShlExact(s, 63);
    SplitUnique(s * SIGN, 63, s, 0);
    OrDisjoint(s * SIGN, INF, 63);
  }

  /** The rounded pattern of a result before overflow is considered. */
  ghost function Rounded(pe: int, m: Word): nat
    requires m < SIGN
  {
    if pe >= 0 then Compose(pe, RoundTenBits(m))
    else
      DenormalizeFits(m, -pe);
      Compose(0, RoundTenBits(Denormalize(m, -pe)))
  }

  lemma DenormalizeFits(m: Word, n: nat)
    requires m < SIGN
    ensures Denormalize(m, n) < SIGN
  {
    hide Denormalize, Pow2, Sticky;
    DenormalizeValue(m, n);
    MulMono(1, Pow2(n), SIGN);
    StickyBelow(m, n, SIGN);
  }

  lemma RoundedIsNearest(v: nat, pe: int, m: Word)
    requires Result(v, pe, m)
    ensures NearestEven(v, Pow2(1300), Saturate(Rounded(pe, m)))
  {
    hide Pow2, Shr, Low, Denormalize, BetweenMidpoints, NearestEven, Sound, Sticky, RoundTenBits;
    Pow2Small();
    if pe >= 0 {
      Pow2Add(10, pe + 1290);
      Pow2Add(pe, 1300);
      RoundTenBitsValue(m);
      RoundSound(v, m, Pow2(pe + 1290), pe, Pow2(1300));
    } else {
      var n := -pe;
      Pow2Add(10, 1290);
      Pow2Add(n, pe + 1290);
      PowZero(Pow2(1300));
      DenormalizeValue(m, n);
      DenormalizeFits(m, n);
      SoundSticky(v, m, Pow2(pe + 1290), n);
      RoundTenBitsValue(Denormalize(m, n));
      RoundSound(v, Denormalize(m, n), Pow2(1290), 0, Pow2(1300));
    }
    NearestFromMidpoints(v, Pow2(1300), Rounded(pe, m));
  }

  lemma RoundTenBitsBound(m: Word)
    requires m < SIGN
    ensures RoundTenBits(m) <= 2 * FRAC
    ensures RoundTenBits(m) == 2 * FRAC <==> m + 512 >= SIGN
    ensures m >= B62 ==> RoundTenBits(m) >= FRAC
    ensures m == 0 ==> RoundTenBits(m) == 0
  {
    hide Pow2, Shr, Low, RoundTenBits;
    RoundTenBitsValue(m);
    Split(m, 10);
    Pow2Small();
  }

  /** Lines 157-169 */
  method Pack(ps: nat, pe0: int, m0: Word, ghost v: nat) returns (r: Word)
    requires ps <= 1 && -2000 <= pe0 <= 3070
    requires (m0 == 0 && pe0 <= 2000) || Result(v, pe0, m0)
    ensures m0 == 0 ==> r == WithSign(ps, 0)
    ensures m0 != 0 ==> SignBit(r) == ps && NearestEven(v, Pow2(1300), Abs(r))
  {
    hide Pow2, Shr, Low, Shl, And, Or, Denormalize, NearestEven, Sound, RoundTenBits;
    var pe, m := pe0, m0;
    PlaceSign(ps);
    RoundTenBitsBound(m);
    TopBitOf(m + 512);
    if m0 != 0 { RoundedIsNearest(v, pe0, m0); }
    if pe > 1022 + 1023 || (pe == 1022 + 1023 && Shr(m + 512, 63) == 1) {
      r := OrWord(Shl(ps, 63), INF);
      return;
    }
    if pe < 0 {
      DenormalizeFits(m, -pe);
      DenormalizeOfZero(m, -pe);
      m := Denormalize(m, -pe);
      pe := 0;
      RoundTenBitsBound(m);
    }
    m := RoundTenBits(m);
    MaskExpo(pe, Nonzero(m));
    pe := And(pe, MinusInt32(Nonzero(m)));
    PlaceExpo(pe);
    r := Shl(ps, 63) + Shl(pe, 52) + m;
  }

  lemma TopBitOf(x: Word)
    ensures Shr(x, 63) == if x < SIGN then 0 else 1
  {
    hide Pow2, Shr, Low;
    Pow2Values();
    var b := if x < SIGN then 0 else 1;
    SplitUnique(x, 63, b, x - b * SIGN);
  }

  lemma DenormalizeOfZero(m: Word, n: nat)
    ensures m == 0 ==> Denormalize(m, n) == 0
  {
    hide Denormalize, Shr, Low;
    DenormalizeValue(m, n);
    LowAll(0, n);
  }

  // ----- the function -----

  function Signed(s: nat, v: nat): int { if s == 0 then v else 0 - v }

  /** r is the correctly rounded pattern of the exact value t / d: magnitude
      nearest, ties to even, and the sign of t. */
  ghost predicate CorrectlyRounded(t: int, d: nat, r: Word) {
    && NearestEven(Magnitude(t), d, Abs(r))
    && SignBit(r) == (if t < 0 then 1 else 0)
  }

  /** Comparing exponents and upper words orders the exact values. */
  lemma Ordering(vp: nat, pe: int, p1: Word, p2: Word, vz: nat, ze: int, z1: Word, z2: Word)
    requires Normal(vp, pe, p1, p2) && Normal(vz, ze, z1, z2)
    ensures pe < ze ==> vp < vz
    ensures pe == ze && p1 < z1 ==> vp < vz
    ensures pe == ze && p1 >= z1 && z2 == 0 ==> Wide(p1, p2) >= Wide(z1, z2)
  {
    hide Pow2;
    if pe < ze {
      Pow2Monotone(pe + 1225, ze + 1225);
      MulStrict(Wide(p1, p2), 2 * B126, Weight(pe));
      MulMono(B126, Wide(z1, z2), Weight(ze));
    } else if pe == ze && p1 < z1 {
      assert Wide(p1, p2) < Wide(z1, z2);
      MulStrict(Wide(p1, p2), Wide(z1, z2), Weight(pe));
    }
  }

  /** Lines 130-169: adds two normalized numbers and rounds the result once. */
  method AddAndRound(ps0: nat, pe0: int, p1: Word, p2: Word, zs0: nat, ze0: int, z1: Word, ghost vp0: nat, ghost vz0: nat)
    returns (r: Word)
    requires ps0 <= 1 && zs0 <= 1 && -1125 <= pe0 <= 3070 && -51 <= ze0 <= 2046
    requires Normal(vp0, pe0, p1, p2) && Normal(vz0, ze0, z1, 0)
    ensures var t := Signed(ps0, vp0) + Signed(zs0, vz0);
      && (t != 0 ==> CorrectlyRounded(t, Pow2(1300), r))
      && (t == 0 ==> r == WithSign(ps0, 0))
  {
    hide Pow2, Normal, Wide, ShrCompress, NearestEven, Sound, Result, Weight;
    var ps, pe, pm1, pm2 := ps0, pe0, p1, p2;
    var zs, ze, zm1, zm2 := zs0, ze0, z1, 0;
    ghost var vp, vz := vp0, vz0;
    Ordering(vp, pe, pm1, pm2, vz, ze, zm1, zm2);
    Ordering(vz, ze, zm1, zm2, vp, pe, pm1, pm2);
    if pe < ze || (pe == ze && pm1 < zm1) {
      ps, pe, pm1, pm2, zs, ze, zm1, zm2 := zs, ze, zm1, zm2, ps, pe, pm1, pm2;
      vp, vz := vz, vp;
      UpperDecides(pm1, pm2, zm1, zm2);
    }
    Align(vz, ze, zm1, zm2, pe - ze);
    NormalRange(vp, pe, pm1, pm2);
    var z := ShrCompress(zm1, zm2, pe - ze);
    var e: int, m: Word;
    if ps == zs {
      e, m := AddAligned(pe, pm1, pm2, z.0, z.1, vp, vz);
      ResultNonzero(vp + vz, e, m);
      r := Pack(ps, e, m, vp + vz);
    } else {
      e, m := SubAligned(pe, pm1, pm2, z.0, z.1, vp, vz);
      if vp > vz { ResultNonzero(vp - vz, e, m); }
      r := Pack(ps, e, m, vp - vz);
    }
  }

  lemma UpperDecides(p1: Word, p2: Word, z1: Word, z2: Word)
    ensures p1 > z1 ==> Wide(p1, p2) >= Wide(z1, z2)
  {
  }

  lemma NormalRange(v: nat, e: int, u1: Word, u2: Word)
    requires Normal(v, e, u1, u2)
    ensures e >= -1225 && B126 <= Wide(u1, u2) < 2 * B126
  {
  }

  lemma ResultNonzero(v: nat, e: int, m: Word)
    requires Result(v, e, m)
    ensures m != 0 && v > 0
  {
    hide Pow2;
    MulMono(1, m, Pow2(e + 1290));
    if v != m * Pow2(e + 1290) { MulMono(2, m, Pow2(e + 1290)); }
  }

  /** Operands that reach the integer code: finite and nonzero. */
  predicate Regular(x: Word) { 0 < Abs(x) < INF }

  /** x * y + z, exactly, in units of 2^-2148. */
  function ExactSum(x: Word, y: Word, z: Word): int {
    Val(x) * Val(y) + Val(z) * Pow2(1074)
  }

  ghost function FineProduct(mx: nat, my: nat): nat {
    MulNat(mx, my);
    MulNat(mx * my, Pow2(226));
    (mx * my) * Pow2(226)
  }

  ghost function FineAddend(mz: nat): nat {
    MulNat(mz, Pow2(1300));
    mz * Pow2(1300)
  }

  lemma MulNat(a: nat, b: nat)
    ensures a * b >= 0
  {
  }

  /** The exact sum in the fine units of Weight. */
  ghost function FineSum(x: Word, y: Word, z: Word): int {
    Signed(Xor(SignBit(x), SignBit(y)), FineProduct(Mag(Abs(x)), Mag(Abs(y))))
    + Signed(SignBit(z), FineAddend(Mag(Abs(z))))
  }

  /** Line 95: FMA. Zero or non-finite factors and a zero z are left to the
      hardware, whose result is hw. */
  method FMA(x: Word, y: Word, z: Word, hw: Word) returns (r: Word)
    ensures !Regular(x) || !Regular(y) || IsZero(z) ==> r == hw
    ensures Regular(x) && Regular(y) && Abs(z) >= INF ==> r == z
    ensures Regular(x) && Regular(y) && Regular(z) && ExactSum(x, y, z) != 0 ==>
      CorrectlyRounded(ExactSum(x, y, z), Pow2(1074), r)
    ensures Regular(x) && Regular(y) && Regular(z) && ExactSum(x, y, z) == 0 ==>
      Abs(r) == 0 && (r == 0 <==> SignBit(x) == SignBit(y))
  {
    if IsZero(x) || IsZero(y) || IsZero(z) || !IsFinite(x) || !IsFinite(y) {
      return hw;
    }
    if !IsFinite(z) {
      return z;
    }
    hide CorrectlyRounded, ExactSum, Pow2, Xor;
    r := FmaRegular(x, y, z);
  }

  /** Lines 110-169, for operands that are finite and nonzero. */
  method FmaRegular(x: Word, y: Word, z: Word) returns (r: Word)
    requires Regular(x) && Regular(y) && Regular(z)
    ensures ExactSum(x, y, z) != 0 ==> CorrectlyRounded(ExactSum(x, y, z), Pow2(1074), r)
    ensures ExactSum(x, y, z) == 0 ==> Abs(r) == 0 && (r == 0 <==> SignBit(x) == SignBit(y))
  {
    hide Pow2, Normal, SplitFloat, Mag, Shl, Weight, ExactSum, Xor, CorrectlyRounded, FineAddend, FineProduct;
    SplitFloatValue(x);
    SplitFloatValue(y);
    SplitFloatValue(z);
    var fx, fy, fz := SplitFloat(x), SplitFloat(y), SplitFloat(z);
    ghost var mx, my, mz := Mag(Abs(x)), Mag(Abs(y)), Mag(Abs(z));
    var pe, pm1, pm2 := Product(fx.1, fx.2, fy.1, fy.2, mx, my);
    FineProductIs(mx, my);
    var zm1: Word := Shl(fz.2, 10);
    AddendNormal(fz.1, fz.2, mz);
    XorBits(fx.0, fy.0);
    var ps := Xor(fx.0, fy.0);
    r := AddAndRound(ps, pe, pm1, pm2, fz.0, fz.1, zm1, FineProduct(mx, my), FineAddend(mz));
    Rescale(x, y, z, r);
    CancelledSign(x, y);
  }

  lemma FineProductIs(mx: nat, my: nat)
    ensures FineProduct(mx, my) == (mx * my) * Pow2(226)
  {
    hide Pow2;
  }

  lemma XorBits(a: nat, b: nat)
    requires a <= 1 && b <= 1
    ensures Xor(a, b) == if a == b then 0 else 1
  {
    XorZero(a, b);
  }

  /** Line 122: z as a normalized double word. */
  lemma AddendNormal(e: int, m: Word, mz: nat)
    requires -51 <= e <= 2046 && FRAC <= m < 2 * FRAC && mz * Pow2(52) == m * Pow2(e + 51)
    ensures Normal(FineAddend(mz), e, Shl(m, 10), 0)
  {
    hide Pow2, Shl, Shr, Low, FineAddend, Weight;
    ShiftedTen(m);
    FineAddendIs(e, m, mz);
  }

  lemma ShiftedTen(m: Word)
    requires FRAC <= m < 2 * FRAC
    ensures Wide(Shl(m, 10), 0) == m * Pow2(74) && B126 <= m * Pow2(74) < 2 * B126 && (m * Pow2(74)) % 2 == 0
  {
    hide Pow2, Shl;
    assert Pow2(74) == 0x400_0000_0000_0000_0000 by { Pow2Values(); Pow2Add(10, 64); }
    assert m * Pow2(74) == m * 0x400_0000_0000_0000_0000;
    assert Shl(m, 10) == m * 1024 by { Pow2Small(); ShlExact(m, 10); }
    TimesWide(m);
  }

  lemma TimesWide(m: nat)
    requires FRAC <= m < 2 * FRAC
    ensures m * 1024 < W64 && Wide(m * 1024, 0) == m * 0x400_0000_0000_0000_0000
    ensures B126 <= m * 0x400_0000_0000_0000_0000 < 2 * B126 && (m * 0x400_0000_0000_0000_0000) % 2 == 0
  {
    TwiceIsEven(m * 0x200_0000_0000_0000_0000);
  }

  lemma FineAddendIs(e: int, m: nat, mz: nat)
    requires -51 <= e <= 2046 && mz * Pow2(52) == m * Pow2(e + 51)
    ensures FineAddend(mz) == (m * Pow2(74)) * Weight(e)
  {
    hide Pow2;
    Pow2Add(52, 1248);
    Pow2Add(e + 51, 1248);
    MulAssoc(mz, Pow2(52), Pow2(1248));
    MulAssoc(m, Pow2(e + 51), Pow2(1248));
    Pow2Add(74, e + 1225);
    MulAssoc(m, Pow2(74), Weight(e));
  }

  /** From the fine units back to units of 2^-2148. */
  lemma Rescale(x: Word, y: Word, z: Word, r: Word)
    requires FineSum(x, y, z) != 0 ==> CorrectlyRounded(FineSum(x, y, z), Pow2(1300), r)
    ensures FineSum(x, y, z) == 0 <==> ExactSum(x, y, z) == 0
    ensures ExactSum(x, y, z) != 0 ==> CorrectlyRounded(ExactSum(x, y, z), Pow2(1074), r)
  {
    hide Pow2, Mag, NearestEven, ExactSum, FineSum;
    var k, v, t := Pow2(226), ExactSum(x, y, z), FineSum(x, y, z);
    ExactScaled(x, y, z);
    MulCancel(v, 0, k);
    MulCancel(0, v, k);
    if t != 0 {
      SignedMagnitude(v, k);
      Pow2Add(1074, 226);
      NearestScale(Magnitude(v), Pow2(1074), k, Abs(r));
    }
  }

  lemma SignedMagnitude(v: int, k: nat)
    ensures Magnitude(v * k) == Magnitude(v) * k
  {
    if v >= 0 { MulMono(0, v, k); } else { MulMono(v, 0, k); }
  }

  lemma ExactScaled(x: Word, y: Word, z: Word)
    ensures FineSum(x, y, z) == ExactSum(x, y, z) * Pow2(226)
  {
    hide Pow2, Mag;
    var mx, my, mz, k := Mag(Abs(x)), Mag(Abs(y)), Mag(Abs(z)), Pow2(226);
    var s, p := Xor(SignBit(x), SignBit(y)), mx * my;
    Pow2Add(1074, 226);
    XorBits(SignBit(x), SignBit(y));
    assert Val(x) * Val(y) == Signed(s, p) by { SignedProduct(mx, my); }
    SignedTimes(SignBit(z), mz, Pow2(1074));
    SignedTimes(SignBit(z), mz * Pow2(1074), k);
    SignedTimes(s, p, k);
    MulAssoc(mz, Pow2(1074), k);
    SumTimes(Val(x) * Val(y), Val(z) * Pow2(1074), k);
  }

  lemma SignedProduct(a: int, b: int)
    ensures (0 - a) * b == 0 - a * b && a * (0 - b) == 0 - a * b && (0 - a) * (0 - b) == a * b
  {
  }

  lemma SignedTimes(s: nat, v: nat, k: nat)
    ensures Signed(s, v) * k == Signed(s, v * k)
  {
  }

  lemma SumTimes(a: int, b: int, k: int)
    ensures (a + b) * k == a * k + b * k
  {
  }

  /** The result is the reference rounding of the exact sum. */
  lemma CorrectlyRoundedIsRound(t: int, k: nat, r: Word)
    requires CorrectlyRounded(t, Pow2(k), r)
    ensures r == WithSign(if t < 0 then 1 else 0, Round(Magnitude(t), k))
  {
    hide Pow2, Round, NearestEven;
    RoundIsNearest(Magnitude(t), k);
    NearestUnique(Magnitude(t), Pow2(k), Abs(r), Round(Magnitude(t), k));
  }

  /** The sign of the product. An exactly cancelling sum should be +0 (section 6.3 of IEEE
      754-2008), so that it is the right one just when x and y have the same sign. */
  lemma CancelledSign(x: Word, y: Word)
    ensures Xor(SignBit(x), SignBit(y)) == if SignBit(x) == SignBit(y) then 0 else 1
  {
    XorBits(SignBit(x), SignBit(y));
  }

  /** (-1) * 1 + 1 gives -0. */
  method CancelledSignFails() returns (r: Word)
    ensures r == SIGN
  {
    hide Pow2, Mag;
    var one: Word, minusOne: Word := 0x3FF0_0000_0000_0000, 0xBFF0_0000_0000_0000;
    MagOne();
    XorBits(1, 0);
    assert ExactSum(minusOne, one, one) == 0 by {
      assert (0 - Mag(one)) * Mag(one) + Mag(one) * Pow2(1074) == 0;
    }
    r := FMA(minusOne, one, one, 0);
  }
}
