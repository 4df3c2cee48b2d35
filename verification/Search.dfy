/** Index and LastIndex of package bytes, with the rolling hashes of internal/bytealg. */
module Search {
  import opened Common

  type Text = seq<Byte>

  // ----- occurrences -----

  predicate At(s: Text, sep: Text, i: int) { 0 <= i <= |s| - |sep| && s[i..i + |sep|] == sep }

  /** r is the first occurrence of sep in s, or -1 if there is none. */
  ghost predicate IsFirst(s: Text, sep: Text, r: int) {
    if r < 0 then r == -1 && forall i :: !At(s, sep, i)
    else At(s, sep, r) && forall i | At(s, sep, i) :: r <= i
  }

  ghost predicate IsLast(s: Text, sep: Text, r: int) {
    if r < 0 then r == -1 && forall i :: !At(s, sep, i)
    else At(s, sep, r) && forall i | At(s, sep, i) :: i <= r
  }

  /** The naive search. */
  function FirstIndex(s: Text, sep: Text): (r: int)
    ensures -1 <= r && (r >= 0 ==> r + |sep| <= |s|)
  {
    if sep <= s then 0
    else if s == [] then -1
    else var r := FirstIndex(s[1..], sep); if r < 0 then -1 else r + 1
  }

  lemma Slice(s: Text, i: nat, k: nat, n: nat)
    requires i + k + n <= |s|
    ensures s[i..][k..k + n] == s[i + k..i + k + n]
  {
  }

  lemma {:induction false} FirstIndexIs(s: Text, sep: Text)
    ensures IsFirst(s, sep, FirstIndex(s, sep))
    decreases s
  {
    if sep <= s {
      assert At(s, sep, 0);
    } else if s != [] {
      FirstIndexIs(s[1..], sep);
      assert !At(s, sep, 0);
      forall i | i != 0
        ensures At(s, sep, i) <==> At(s[1..], sep, i - 1)
      {
        if 0 < i <= |s| - |sep| { Slice(s, 1, i - 1, |sep|); }
      }
    }
  }

  // ----- arithmetic modulo 2^32 -----

  function U32(x: int): int { x % 0x1_0000_0000 }

  lemma WholeTurns(x: int, k: int)
    ensures U32(x + 0x1_0000_0000 * k) == U32(x)
  {
  }

  /** Reducing a factor first does not matter. */
  lemma U32Times(a: int, b: int, c: int)
    ensures U32(U32(a) * b + c) == U32(a * b + c)
  {
    var q := a / 0x1_0000_0000;
    assert a == U32(a) + 0x1_0000_0000 * q;
    Spread(U32(a), q, b);
    WholeTurns(U32(a) * b + c, q * b);
  }

  lemma Spread(r: int, q: int, b: int)
    ensures (r + 0x1_0000_0000 * q) * b == r * b + 0x1_0000_0000 * (q * b)
  {
  }

  // ----- hashes -----

  const PRIME: int := 16777619

  function Power(n: nat): int { if n == 0 then 1 else PRIME * Power(n - 1) }

  /** The value of w as digits to the base PRIME, the first one counting least. */
  function HashRev(w: Text): int { if w == [] then 0 else w[0] + PRIME * HashRev(w[1..]) }

  /** ... the last one counting least. */
  function Hash(w: Text): int { if w == [] then 0 else PRIME * Hash(w[..|w| - 1]) + w[|w| - 1] }

  lemma {:induction false} HashRevSnoc(w: Text, c: Byte)
    ensures HashRev(w + [c]) == HashRev(w) + Power(|w|) * c
    decreases w
  {
    if w == [] {
      assert w + [c] == [c];
    } else {
      assert (w + [c])[1..] == w[1..] + [c];
      HashRevSnoc(w[1..], c);
      Factor(PRIME, HashRev(w[1..]), Power(|w| - 1), c);
    }
  }

  lemma {:induction false} HashCons(c: Byte, w: Text)
    ensures Hash([c] + w) == Hash(w) + Power(|w|) * c
    decreases w
  {
    if w == [] {
      assert [c] + w == [c];
    } else {
      var init := w[..|w| - 1];
      assert ([c] + w)[..|w|] == [c] + init;
      HashCons(c, init);
      Factor(PRIME, Hash(init), Power(|init|), c);
    }
  }

  lemma Factor(p: int, h: int, q: int, c: int)
    ensures p * (h + q * c) == p * h + (p * q) * c
  {
  }

  /** Lines 145-147: one step of the window to the left. */
  lemma RollLeft(s: Text, n: nat, i: nat, h: int, pow: int)
    requires i + 1 + n <= |s| && h == U32(HashRev(s[i + 1..i + 1 + n])) && pow == U32(Power(n))
    ensures U32(U32(U32(h * PRIME) + s[i]) - U32(pow * s[i + n])) == U32(HashRev(s[i..i + n]))
  {
    hide HashRev, Power;
    var exact := HashRev(s[i + 1..i + 1 + n]);
    Window(s, n, i);
    HashRevSnoc(s[i..i + n], s[i + n]);
    Rolled(exact, h, Power(n), pow, s[i], s[i + n]);
  }

  lemma Window(s: Text, n: nat, i: nat)
    requires i + 1 + n <= |s|
    ensures |s[i..i + n]| == n && HashRev(s[i..i + n] + [s[i + n]]) == s[i] + PRIME * HashRev(s[i + 1..i + 1 + n])
  {
    assert s[i..i + n] + [s[i + n]] == [s[i]] + s[i + 1..i + 1 + n];
    assert ([s[i]] + s[i + 1..i + 1 + n])[1..] == s[i + 1..i + 1 + n];
  }

  /** bytealg.go lines 117-119: one step to the right. */
  lemma RollRight(s: Text, n: nat, i: nat, h: int, pow: int)
    requires i + n < |s| && h == U32(Hash(s[i..i + n])) && pow == U32(Power(n))
    ensures U32(U32(U32(h * PRIME) + s[i + n]) - U32(pow * s[i])) == U32(Hash(s[i + 1..i + 1 + n]))
  {
    hide Power;
    var w := s[i..i + n + 1];
    assert w[..n] == s[i..i + n] && w == [s[i]] + s[i + 1..i + 1 + n];
    assert Hash(w) == PRIME * Hash(s[i..i + n]) + s[i + n];
    HashCons(s[i], s[i + 1..i + 1 + n]);
    hide Hash;
    Rolled(Hash(s[i..i + n]), h, Power(n), pow, s[i + n], s[i]);
  }

  /** The arithmetic of a step: everything is computed modulo 2^32. */
  lemma Rolled(exact: int, h: int, power: int, pow: int, enter: Byte, leave: Byte)
    requires h == U32(exact) && pow == U32(power)
    ensures U32(U32(U32(h * PRIME) + enter) - U32(pow * leave)) == U32(PRIME * exact + enter - power * leave)
  {
    hide U32;
    U32Times(exact, PRIME, enter);
    U32Times(power, leave, 0);
    U32Plus(h * PRIME, enter);
    U32Minus(exact * PRIME + enter, power * leave);
    Swap(exact, PRIME);
  }

  lemma U32Plus(a: int, b: int)
    ensures U32(U32(a) + b) == U32(a + b)
  {
  }

  lemma U32Minus(a: int, b: int)
    ensures U32(U32(a) - U32(b)) == U32(a - b)
  {
  }

  lemma Swap(a: int, b: int)
    ensures a * b == b * a
  {
  }

  lemma HashStep(exact: int, h: int, c: Byte)
    requires h == U32(exact)
    ensures U32(U32(h * PRIME) + c) == U32(PRIME * exact + c)
  {
    hide U32;
    U32Times(exact, PRIME, c);
    U32Plus(h * PRIME, c);
    Swap(exact, PRIME);
  }

  // ----- powers by squaring -----

  function PowerOf(b: int, n: nat): int { if n == 0 then 1 else b * PowerOf(b, n - 1) }

  lemma {:induction false} PowerSquare(b: int, n: nat)
    ensures PowerOf(b * b, n) == PowerOf(b, 2 * n)
    decreases n
  {
    if n > 0 {
      PowerSquare(b, n - 1);
      assert PowerOf(b, 2 * n) == b * (b * PowerOf(b, 2 * n - 2));
    }
  }

  lemma {:induction false} PowerMod(b: int, n: nat)
    ensures U32(PowerOf(U32(b), n)) == U32(PowerOf(b, n))
    decreases n
  {
    if n > 0 {
      PowerMod(b, n - 1);
      var x, y := PowerOf(U32(b), n - 1), PowerOf(b, n - 1);
      hide U32;
      U32Times(b, x, 0);
      SameFactor(b, x, y);
    }
  }

  lemma {:induction false} PowerIs(n: nat)
    ensures PowerOf(PRIME, n) == Power(n)
    decreases n
  {
    if n > 0 { PowerIs(n - 1); }
  }

  /** bytealg.go lines 76-82 */
  method PowerBySquaring(n: nat) returns (pow: int)
    ensures pow == U32(Power(n))
  {
    pow := 1;
    var sq := PRIME;
    var i := n;
    PowerIs(n);
    while i > 0
      invariant i >= 0
      invariant U32(pow * PowerOf(sq, i)) == U32(Power(n))
      invariant pow == U32(pow)
      decreases i
    {
      hide PowerOf, Power;
      Squared(pow, sq, i);
      if i % 2 == 1 {
        pow := U32(pow * sq);
      }
      sq := U32(sq * sq);
      i := i / 2;
    }
  }

  lemma Squared(pow: int, sq: int, i: nat)
    requires i > 0
    ensures var pow' := if i % 2 == 1 then U32(pow * sq) else pow;
      U32(pow' * PowerOf(U32(sq * sq), i / 2)) == U32(pow * PowerOf(sq, i))
  {
    hide PowerOf, U32;
    var k := i / 2;
    PowerMod(sq * sq, k);
    PowerSquare(sq, k);
    var x, y := PowerOf(U32(sq * sq), k), PowerOf(sq, 2 * k);
    if i % 2 == 1 {
      assert i == 2 * k + 1;
      PowerNext(sq, 2 * k);
      U32Times(pow * sq, x, 0);
      SameFactor(pow * sq, x, y);
      Order(pow, sq, y);
    } else {
      SameFactor(pow, x, y);
    }
  }

  lemma PowerNext(b: int, n: nat)
    ensures PowerOf(b, n + 1) == b * PowerOf(b, n)
  {
  }

  lemma SameFactor(a: int, x: int, y: int)
    requires U32(x) == U32(y)
    ensures U32(a * x) == U32(a * y)
  {
    hide U32;
    U32Times(x, a, 0);
    U32Times(y, a, 0);
    Swap(a, x);
    Swap(a, y);
  }

  lemma Order(p: int, s: int, y: int)
    ensures (p * s) * y == p * (s * y)
  {
  }

  // ----- LastIndex -----

  /** bytealg.go line 71: HashStrRevBytes */
  method HashStrRevBytes(sep: Text) returns (hash: int, pow: int)
    ensures hash == U32(HashRev(sep)) && pow == U32(Power(|sep|))
  {
    hash := HashFromRight(sep, 0);
    assert sep[0..] == sep;
    pow := PowerBySquaring(|sep|);
  }

  /** The loops of bytealg.go lines 73-75 and bytes.go lines 138-140. */
  method HashFromRight(s: Text, last: nat) returns (h: int)
    requires last <= |s|
    ensures h == U32(HashRev(s[last..]))
  {
    h := 0;
    var i := |s| - 1;
    assert s[|s|..] == [];
    while i >= last
      invariant last - 1 <= i < |s|
      invariant h == U32(HashRev(s[i + 1..]))
    {
      assert s[i..][1..] == s[i + 1..];
      HashStep(HashRev(s[i + 1..]), h, s[i]);
      h := U32(U32(h * PRIME) + s[i]);
      i := i - 1;
    }
  }

  /** bytes.go line 118: LastIndex */
  method LastIndex(s: Text, sep: Text) returns (r: int)
    ensures IsLast(s, sep, r)
  {
    var n := |sep|;
    if n == 0 {
      assert s[|s|..|s|] == [];
      return |s|;
    }
    if n == 1 {
      assert sep == [sep[0]];
      r := LastIndexByte(s, sep[0]);
      return;
    }
    if n == |s| {
      assert s[0..n] == s;
      return if s == sep then 0 else -1;
    }
    if n > |s| {
      return -1;
    }
    r := LastByHash(s, sep);
  }

  /** Lines 135-152: Rabin-Karp search from the end. */
  method LastByHash(s: Text, sep: Text) returns (r: int)
    requires 2 <= |sep| < |s|
    ensures IsLast(s, sep, r)
  {
    hide HashRev, Power, U32;
    var n := |sep|;
    var hashss, pow := HashStrRevBytes(sep);
    var last := |s| - n;
    var h := HashFromRight(s, last);
    assert s[last..] == s[last..last + n];
    if h == hashss && s[last..] == sep {
      return last;
    }
    var i := last - 1;
    while i >= 0
      invariant -1 <= i < last
      invariant h == U32(HashRev(s[i + 1..i + 1 + n]))
      invariant forall k | i < k :: !At(s, sep, k)
    {
      RollLeft(s, n, i, h, pow);
      h := U32(h * PRIME);
      h := U32(h + s[i]);
      h := U32(h - U32(pow * s[i + n]));
      if h == hashss && s[i..i + n] == sep {
        return i;
      }
      i := i - 1;
    }
    return -1;
  }

  /** Line 157: LastIndexByte */
  method LastIndexByte(s: Text, c: Byte) returns (r: int)
    ensures IsLast(s, [c], r)
  {
    var i := |s| - 1;
    while i >= 0
      invariant -1 <= i < |s|
      invariant forall k | i < k :: !At(s, [c], k)
    {
      assert s[i..i + 1] == [s[i]];
      if s[i] == c {
        return i;
      }
      i := i - 1;
    }
    return -1;
  }

  // ----- Index -----

  /** bytealg.go line 105: IndexRabinKarpBytes */
  method IndexRabinKarp(s: Text, sep: Text) returns (r: int)
    requires |sep| <= |s|
    ensures IsFirst(s, sep, r)
  {
    hide Hash, Power, U32;
    var hashsep := HashFromLeft(sep, |sep|);
    var pow := PowerBySquaring(|sep|);
    assert sep[..|sep|] == sep;
    var n := |sep|;
    var h := HashFromLeft(s, n);
    if h == hashsep && s[..n] == sep {
      assert s[0..n] == sep;
      return 0;
    }
    var i := n;
    assert s[..n] == s[i - n..i];
    while i < |s|
      invariant n <= i <= |s|
      invariant h == U32(Hash(s[i - n..i]))
      invariant forall k | k <= i - n :: !At(s, sep, k)
    {
      RollRight(s, n, i - n, h, pow);
      h := U32(h * PRIME);
      h := U32(h + s[i]);
      h := U32(h - U32(pow * s[i - n]));
      i := i + 1;
      if h == hashsep && s[i - n..i] == sep {
        return i - n;
      }
    }
    return -1;
  }

  /** bytealg.go lines 39-41 and 110-112 */
  method HashFromLeft(s: Text, n: nat) returns (h: int)
    requires n <= |s|
    ensures h == U32(Hash(s[..n]))
  {
    h := 0;
    for i := 0 to n
      invariant h == U32(Hash(s[..i]))
    {
      assert s[..i + 1][..i] == s[..i];
      HashStep(Hash(s[..i]), h, s[i]);
      h := U32(U32(h * PRIME) + s[i]);
    }
  }

  /** What differs between processors: the assembly search takes separators up to maxLen,
      is used at once in texts up to maxBruteForce, and after more than cutover(i) false
      starts. */
  datatype Platform = Platform(maxLen: int, maxBruteForce: int, cutover: int -> int)

  /** bytes.go line 1216: Index finds the first occurrence, whichever strategy it starts
      with or switches to. */
  method Index(p: Platform, s: Text, sep: Text) returns (r: int)
    ensures IsFirst(s, sep, r) && r == FirstIndex(s, sep)
  {
    hide FirstIndex;
    FirstIndexIs(s, sep);
    var n := |sep|;
    if n == 0 {
      assert s[0..0] == [];
      return 0;
    }
    if n == 1 {
      assert sep == [sep[0]];
      r := IndexByte(s, sep[0]);
      SingleByte(s, sep[0]);
      return;
    }
    if n == |s| {
      assert s[0..n] == s;
      return if s == sep then 0 else -1;
    }
    if n > |s| {
      return -1;
    }
    if n <= p.maxLen && |s| <= p.maxBruteForce {
      return FirstIndex(s, sep);
    }
    r := Skim(s, sep, n <= p.maxLen, p.cutover);
  }

  lemma NotBefore(s: Text, c: Byte, r: int, i: nat)
    requires r <= |s| && i < |s| && (r >= 0 ==> c !in s[..r])
    ensures i < r ==> s[i] != c
  {
    if i < r { assert s[..r][i] == s[i]; }
  }

  lemma SingleByte(s: Text, c: Byte)
    ensures IsFirst(s, [c], IndexByte(s, c))
  {
    IndexByteSpec(s, c);
    var r := IndexByte(s, c);
    forall i | At(s, [c], i)
      ensures 0 <= r <= i
    {
      assert s[i] == s[i..i + 1][0] == c;
      NotBefore(s, c, r, i);
    }
    if r >= 0 { assert s[r..r + 1] == [c]; }
  }

  /** Lines 1236-1267 (short) and 1269-1307: looks for the first two bytes, and hands over
      to another search after too many false starts. */
  method Skim(s: Text, sep: Text, short: bool, cutover: int -> int) returns (r: int)
    requires 2 <= |sep| < |s|
    ensures IsFirst(s, sep, r)
  {
    hide FirstIndex, IndexByte;
    var n := |sep|;
    var c0, c1 := sep[0], sep[1];
    var i, fails := 0, 0;
    var t := |s| - n + 1;
    while i < t
      invariant 0 <= i <= t
      invariant forall k | At(s, sep, k) :: i <= k
    {
      if s[i] != c0 {
        var window := s[i + 1..t];
        var o := IndexByte(window, c0);
        SkipTo(s, sep, i, o);
        if o < 0 {
          return -1;
        }
        i := i + (o + 1);
      }
      if s[i + 1] == c1 && s[i..i + n] == sep {
        return i;
      }
      assert !At(s, sep, i);
      i := i + 1;
      fails := fails + 1;
      if short {
        if fails > cutover(i) {
          r := FirstIndex(s[i..], sep);
          FirstIndexIs(s[i..], sep);
          Continue(s, sep, i, r);
          return if r >= 0 then r + i else -1;
        }
      } else if fails >= 4 + i / 16 && i < t {
        var j := IndexRabinKarp(s[i..], sep);
        Continue(s, sep, i, j);
        return if j < 0 then -1 else i + j;
      }
    }
    return -1;
  }

  /** Positions that do not hold the first byte can be skipped. */
  lemma SkipTo(s: Text, sep: Text, i: nat, o: int)
    requires 2 <= |sep| < |s| && i < |s| - |sep| + 1 && s[i] != sep[0]
    requires o == IndexByte(s[i + 1..|s| - |sep| + 1], sep[0])
    requires forall k | At(s, sep, k) :: i <= k
    ensures forall k | At(s, sep, k) :: o >= 0 && i + o + 1 <= k
  {
    var window := s[i + 1..|s| - |sep| + 1];
    IndexByteSpec(window, sep[0]);
    forall k | At(s, sep, k)
      ensures o >= 0 && i + o + 1 <= k
    {
      assert s[k] == s[k..k + |sep|][0] == sep[0];
      assert window[k - i - 1] == sep[0];
      NotBefore(window, sep[0], o, k - i - 1);
    }
  }

  /** A search in the rest finishes the search. */
  lemma Continue(s: Text, sep: Text, i: nat, r: int)
    requires i <= |s| && IsFirst(s[i..], sep, r)
    requires forall k | At(s, sep, k) :: i <= k
    ensures IsFirst(s, sep, if r >= 0 then r + i else -1)
  {
    forall k | i <= k
      ensures At(s, sep, k) <==> At(s[i..], sep, k - i)
    {
      if k <= |s| - |sep| { Slice(s, i, k - i, |sep|); }
    }
    if r < 0 {
      forall k
        ensures !At(s, sep, k)
      {
        if i <= k { assert !At(s[i..], sep, k - i); }
      }
    }
  }
}
