/** Unsigned machine words as natural numbers: powers of two, shifts, and the
    bitwise operators, with the laws the bit tricks of package math rely on. */
module Words {

  // ----- powers of two -----

  function Pow2(n: nat): (r: nat)
    ensures r >= 1
  {
    if n == 0 then 1 else 2 * Pow2(n - 1)
  }

  const W64: nat := 0x1_0000_0000_0000_0000

  /** uint64 */
  type Word = x: nat | x < W64

  lemma {:induction false} Pow2Add(a: nat, b: nat)
    ensures Pow2(a + b) == Pow2(a) * Pow2(b)
  {
    if a == 0 {
    } else {
      Pow2Add(a - 1, b);
      assert Pow2(a + b) == 2 * (Pow2(a - 1) * Pow2(b));
    }
  }

  lemma {:induction false} Pow2Monotone(a: nat, b: nat)
    requires a <= b
    ensures Pow2(a) <= Pow2(b)
    ensures a < b ==> 2 * Pow2(a) <= Pow2(b)
  {
    if a < b {
      Pow2Monotone(a, b - 1);
    }
  }

  lemma Pow2Small()
    ensures Pow2(1) == 2 && Pow2(2) == 4 && Pow2(8) == 256
    ensures Pow2(9) == 512 && Pow2(10) == 1024 && Pow2(11) == 2048
  {
    assert Pow2(3) == 8;
    assert Pow2(5) == 32;
    assert Pow2(7) == 128;
  }

  lemma Pow2Values()
    ensures Pow2(1) == 2 && Pow2(2) == 4 && Pow2(9) == 512 && Pow2(10) == 1024 && Pow2(11) == 2048
    ensures Pow2(52) == 0x10_0000_0000_0000
    ensures Pow2(53) == 0x20_0000_0000_0000
    ensures Pow2(62) == 0x4000_0000_0000_0000
    ensures Pow2(63) == 0x8000_0000_0000_0000
    ensures Pow2(64) == W64
  {
    Pow2Small();
    var p: nat, q: nat, r: nat := Pow2(20), Pow2(40), Pow2(50);
    assert p == 0x10_0000 by { Pow2Add(10, 10); }
    assert q == 0x100_0000_0000 by { Pow2Add(20, 20); }
    assert r == 0x4_0000_0000_0000 by { Pow2Add(40, 10); }
    Pow2Add(50, 2);
    Pow2Add(52, 1);
    Pow2Add(52, 10);
    Pow2Add(62, 1);
    Pow2Add(63, 1);
  }

  // ----- products -----

  lemma MulMono(a: int, b: int, c: int)
    requires a <= b && c >= 0
    ensures a * c <= b * c
  {
  }

  lemma MulStrict(a: int, b: int, c: int)
    requires a < b && c > 0
    ensures a * c < b * c
  {
  }

  lemma MulCancel(a: int, b: int, c: int)
    requires c > 0
    ensures a * c <= b * c <==> a <= b
    ensures a * c < b * c <==> a < b
    ensures a * c == b * c <==> a == b
  {
    if a < b { MulStrict(a, b, c); } else if b < a { MulStrict(b, a, c); }
  }

  lemma Regroup(a: int, p: int)
    ensures a * (2 * p) == 2 * (a * p)
  {
  }

  lemma MulAssoc(a: int, b: int, c: int)
    ensures (a * b) * c == a * (b * c)
  {
  }

  lemma MulSucc(a: int, c: int)
    ensures (a + 1) * c == a * c + c
  {
  }

  lemma Distribute(h: int, d: int, l: int, p: int)
    ensures (h * d + l) * p == h * (d * p) + l * p
  {
  }

  lemma TwiceIsEven(x: nat)
    ensures (2 * x) % 2 == 0
  {
  }

  // ----- shifts -----

  /** x >> n */
  function Shr(x: nat, n: nat): nat
    decreases n
  {
    if n == 0 then x else Shr(x / 2, n - 1)
  }

  /** The n lowest bits of x. */
  function Low(x: nat, n: nat): nat
    decreases n
  {
    if n == 0 then 0 else x % 2 + 2 * Low(x / 2, n - 1)
  }

  lemma NoShift(x: nat)
    ensures Shr(x, 0) == x && x * Pow2(0) == x
  {
  }

  /** x << n in 64 bits. */
  function Shl(x: nat, n: nat): (r: Word)
  {
    LowBound(x * Pow2(n), 64);
    Pow2Values();
    Low(x * Pow2(n), 64)
  }

  lemma {:induction false} LowBound(x: nat, n: nat)
    ensures Low(x, n) < Pow2(n)
    decreases n
  {
    if n > 0 { LowBound(x / 2, n - 1); }
  }

  /** Shr and Low are quotient and remainder by 2^n. */
  lemma {:induction false} Split(x: nat, n: nat)
    ensures x == Shr(x, n) * Pow2(n) + Low(x, n)
    ensures Low(x, n) < Pow2(n)
    decreases n
  {
    if n > 0 {
      Split(x / 2, n - 1);
      assert Shr(x, n) * Pow2(n) == 2 * (Shr(x / 2, n - 1) * Pow2(n - 1));
    }
  }

  /** ... and they are the only such pair. */
  lemma SplitUnique(x: nat, n: nat, q: nat, r: nat)
    requires x == q * Pow2(n) + r && r < Pow2(n)
    ensures Shr(x, n) == q && Low(x, n) == r
  {
    Split(x, n);
    QuotientUnique(Pow2(n), q, r, Shr(x, n), Low(x, n));
  }

  lemma QuotientUnique(p: int, q: int, r: int, q': int, r': int)
    requires q * p + r == q' * p + r' && 0 <= r < p && 0 <= r' < p
    ensures q == q' && r == r'
  {
    if q < q' {
      MulMono(q + 1, q', p);
    } else if q' < q {
      MulMono(q' + 1, q, p);
    }
  }

  lemma ShrLess(x: nat, n: nat, b: nat)
    requires x < b * Pow2(n)
    ensures Shr(x, n) < b
  {
    Split(x, n);
    MulCancel(Shr(x, n), b, Pow2(n));
  }

  lemma ShrAtLeast(x: nat, n: nat, b: nat)
    requires x >= b * Pow2(n)
    ensures Shr(x, n) >= b
  {
    Split(x, n);
    MulSucc(Shr(x, n), Pow2(n));
    MulCancel(b, Shr(x, n) + 1, Pow2(n));
  }

  lemma LowAll(x: nat, n: nat)
    requires x < Pow2(n)
    ensures Low(x, n) == x && Shr(x, n) == 0
  {
    SplitUnique(x, n, 0, x);
  }

  /** A left shift that drops no bit. */
  lemma ShlExact(x: nat, n: nat)
    requires x * Pow2(n) < W64
    ensures Shl(x, n) == x * Pow2(n)
  {
    hide Pow2, Low, Shr;
    Pow2Values();
    LowAll(x * Pow2(n), 64);
  }

  lemma ShlOne(x: nat)
    requires 2 * x < W64
    ensures Shl(x, 1) == 2 * x
  {
    hide Shl, Pow2;
    Pow2Small();
    ShlExact(x, 1);
  }

  // ----- bitwise operators -----

  function Or(x: nat, y: nat): nat
    decreases x + y
  {
    if x == 0 && y == 0 then 0
    else (if x % 2 == 1 || y % 2 == 1 then 1 else 0) + 2 * Or(x / 2, y / 2)
  }

  function And(x: nat, y: nat): nat {
    if x == 0 then 0
    else (if x % 2 == 1 && y % 2 == 1 then 1 else 0) + 2 * And(x / 2, y / 2)
  }

  function Xor(x: nat, y: nat): nat
    decreases x + y
  {
    if x == 0 && y == 0 then 0
    else (if x % 2 != y % 2 then 1 else 0) + 2 * Xor(x / 2, y / 2)
  }

  /** x &^ y */
  function AndNot(x: nat, y: nat): nat {
    if x == 0 then 0
    else (if x % 2 == 1 && y % 2 == 0 then 1 else 0) + 2 * AndNot(x / 2, y / 2)
  }

  /** ^x in 64 bits. */
  function Not(x: Word): Word {
    W64 - 1 - x
  }

  lemma {:induction false} OrZero(x: nat)
    ensures Or(x, 0) == x
  {
    if x != 0 { OrZero(x / 2); }
  }

  lemma {:induction false} OrSame(x: nat)
    ensures Or(x, x) == x
  {
    if x != 0 { OrSame(x / 2); }
  }

  lemma OrOne(x: nat)
    ensures Or(x, 1) == if x % 2 == 1 then x else x + 1
  {
    OrZero(x / 2);
  }

  lemma {:induction false} OrSymmetric(x: nat, y: nat)
    ensures Or(x, y) == Or(y, x)
    decreases x + y
  {
    if x != 0 || y != 0 { OrSymmetric(x / 2, y / 2); }
  }

  lemma {:induction false} OrNonzero(x: nat, y: nat)
    ensures Or(x, y) == 0 <==> x == 0 && y == 0
    decreases x + y
  {
    if x != 0 || y != 0 { OrNonzero(x / 2, y / 2); }
  }

  lemma {:induction false} OrBound(x: nat, y: nat, k: nat)
    requires x < Pow2(k) && y < Pow2(k)
    ensures Or(x, y) < Pow2(k)
  {
    if k != 0 { OrBound(x / 2, y / 2, k - 1); }
  }

  /** Words without a common bit add without carries. */
  lemma {:induction false} OrDisjoint(x: nat, y: nat, k: nat)
    requires Low(x, k) == 0 && y < Pow2(k)
    ensures Or(x, y) == x + y
    decreases k
  {
    if k == 0 {
      OrZero(x);
    } else if x == 0 && y == 0 {
    } else {
      OrDisjoint(x / 2, y / 2, k - 1);
    }
  }

  /** Or works on the parts above and below bit k separately. */
  lemma {:induction false} OrParts(a: nat, l: nat, b: nat, m: nat, k: nat, x: nat, y: nat)
    requires l < Pow2(k) && m < Pow2(k) && x == a * Pow2(k) + l && y == b * Pow2(k) + m
    ensures Or(x, y) == Or(a, b) * Pow2(k) + Or(l, m)
    decreases k
  {
    if k == 0 {
      OrZero(0);
    } else {
      var p := Pow2(k - 1);
      Regroup(a, p);
      Regroup(b, p);
      OrParts(a, l / 2, b, m / 2, k - 1, x / 2, y / 2);
      Regroup(Or(a, b), p);
      OrStep(x, y);
      OrStep(l, m);
    }
  }

  lemma OrStep(x: nat, y: nat)
    ensures Or(x, y) == (if x % 2 == 1 || y % 2 == 1 then 1 else 0) + 2 * Or(x / 2, y / 2)
  {
  }

  lemma {:induction false} XorZero(x: nat, y: nat)
    ensures Xor(x, y) == 0 <==> x == y
    decreases x + y
  {
    if x != 0 || y != 0 { XorZero(x / 2, y / 2); }
  }

  lemma AndOne(x: nat)
    ensures And(x, 1) == x % 2
  {
    if x != 0 { AndZero(x / 2); }
  }

  lemma {:induction false} AndZero(x: nat)
    ensures And(x, 0) == 0
  {
    if x != 0 { AndZero(x / 2); }
  }

  /** Masking with 2^k - 1 keeps the low k bits. */
  lemma {:induction false} AndMask(x: nat, k: nat)
    ensures And(x, Pow2(k) - 1) == Low(x, k)
    decreases k
  {
    if k == 0 {
      AndZero(x);
    } else if x == 0 {
      LowAll(0, k);
    } else {
      AndMask(x / 2, k - 1);
      assert (Pow2(k) - 1) / 2 == Pow2(k - 1) - 1;
    }
  }

  lemma {:induction false} AndNotZero(x: nat)
    ensures AndNot(x, 0) == x
  {
    if x != 0 { AndNotZero(x / 2); }
  }

  /** Testing a single bit. */
  lemma {:induction false} AndBit(x: nat, k: nat)
    requires x < 2 * Pow2(k)
    ensures And(x, Pow2(k)) == if x < Pow2(k) then 0 else Pow2(k)
    decreases k
  {
    if k == 0 {
      AndZero(x / 2);
    } else {
      AndBit(x / 2, k - 1);
    }
  }

  /** Clearing with 2^k - 1 drops the low k bits. */
  lemma {:induction false} AndNotMask(x: nat, k: nat)
    ensures AndNot(x, Pow2(k) - 1) == x - Low(x, k)
    decreases k
  {
    if k == 0 {
      AndNotZero(x);
    } else if x == 0 {
      LowAll(0, k);
    } else {
      AndNotMask(x / 2, k - 1);
      assert (Pow2(k) - 1) / 2 == Pow2(k - 1) - 1;
    }
  }

  /** Clearing with a mask shifted left by s leaves the low s bits alone. */
  lemma {:induction false} AndNotShifted(x: nat, y: nat, s: nat, z: nat)
    requires z == y * Pow2(s)
    ensures AndNot(x, z) == AndNot(Shr(x, s), y) * Pow2(s) + Low(x, s)
    decreases s
  {
    if s > 0 {
      Regroup(y, Pow2(s - 1));
      AndNotShifted(x / 2, y, s - 1, z / 2);
      AndNotDouble(x, z / 2);
      var a := AndNot(Shr(x / 2, s - 1), y);
      Regroup(a, Pow2(s - 1));
    }
  }

  lemma AndNotDouble(x: nat, z: nat)
    ensures AndNot(x, 2 * z) == x % 2 + 2 * AndNot(x / 2, z)
  {
  }

  /** x & ^1 clears the lowest bit. */
  lemma AndNotOne(x: Word)
    ensures And(x, Not(1)) == x - x % 2
  {
    Pow2Values();
    if x != 0 {
      assert Not(1) / 2 == Pow2(63) - 1;
      AndMask(x / 2, 63);
      LowAll(x / 2, 63);
    }
  }

  // ----- words stay words -----

  lemma {:induction false} ShrAtMost(x: nat, n: nat)
    ensures Shr(x, n) <= x
    decreases n
  {
    if n > 0 { ShrAtMost(x / 2, n - 1); }
  }

  function ShrWord(x: Word, n: nat): Word {
    ShrAtMost(x, n);
    Shr(x, n)
  }

  lemma OrFits(x: Word, y: Word)
    ensures Or(x, y) < W64
  {
    Pow2Values();
    OrBound(x, y, 64);
  }

  function OrWord(x: Word, y: Word): Word {
    OrFits(x, y);
    Or(x, y)
  }

  lemma {:induction false} AndAtMost(x: nat, y: nat)
    ensures And(x, y) <= x && And(x, y) <= y && AndNot(x, y) <= x
  {
    if x != 0 { AndAtMost(x / 2, y / 2); }
  }

  function AndWord(x: Word, y: Word): Word {
    AndAtMost(x, y);
    And(x, y)
  }

  function AndNotWord(x: Word, y: nat): Word {
    AndAtMost(x, y);
    AndNot(x, y)
  }

  /** Subtraction of shift counts of type uint: a negative one wraps around. */
  function CountSub(a: nat, b: nat): nat
    requires b <= W64
  {
    if a >= b then a - b else a + W64 - b
  }

  // ----- package math/bits -----

  /** Number of bits of x. */
  function Len(x: nat): (n: nat)
    ensures x == 0 <==> n == 0
  {
    if x == 0 then 0 else 1 + Len(x / 2)
  }

  lemma {:induction false} LenBounds(x: nat)
    requires x > 0
    ensures Pow2(Len(x) - 1) <= x < Pow2(Len(x))
  {
    if x == 1 {
      assert Len(1) == 1;
    } else {
      LenBounds(x / 2);
      assert Len(x / 2) >= 1;
    }
  }

  /** Len is the only such number. */
  lemma LenUnique(x: nat, n: nat)
    requires n > 0 && Pow2(n - 1) <= x < Pow2(n)
    ensures Len(x) == n
  {
    LenBounds(x);
    if Len(x) < n {
      Pow2Monotone(Len(x), n - 1);
    } else if Len(x) > n {
      Pow2Monotone(n, Len(x) - 1);
    }
  }

  lemma LenAtMost(x: nat, n: nat)
    requires x < Pow2(n)
    ensures Len(x) <= n
  {
    if x > 0 {
      LenBounds(x);
      if Len(x) > n { Pow2Monotone(n, Len(x) - 1); }
    }
  }

  function LeadingZeros64(x: Word): (n: nat)
    ensures n <= 64
  {
    Pow2Values();
    LenAtMost(x, 64);
    64 - Len(x)
  }

  /** bits.Mul64: the two words of the product. */
  function Mul64(x: Word, y: Word): (r: (Word, Word))
    ensures r.0 * W64 + r.1 == x * y
  {
    var p: nat := x * y;
    assert p <= (W64 - 1) * (W64 - 1) by { MulMono(x, W64 - 1, y); MulMono(y, W64 - 1, W64 - 1); }
    (p / W64, p % W64)
  }

  /** bits.Add64: sum and carry. */
  function Add64(x: Word, y: Word, c: nat): (r: (Word, nat))
    requires c <= 1
    ensures r.1 <= 1 && r.1 * W64 + r.0 == x + y + c
  {
    if x + y + c < W64 then (x + y + c, 0) else (x + y + c - W64, 1)
  }

  /** x + y in 64 bits. */
  function Plus(x: Word, y: Word): Word { Add64(x, y, 0).0 }

  /** bits.Sub64: difference and borrow. */
  function Sub64(x: Word, y: Word, b: nat): (r: (Word, nat))
    requires b <= 1
    ensures r.1 <= 1 && r.0 == x - y - b + r.1 * W64
  {
    if x - y - b >= 0 then (x - y - b, 0) else (x - y - b + W64, 1)
  }
}
