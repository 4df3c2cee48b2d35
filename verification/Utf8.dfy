/** UTF-8 as package unicode/utf8 decodes and encodes it (section 3 of RFC 3629). */
module Utf8 {
  import opened Common

  /** A continuation byte. */
  predicate Continues(b: Byte) { 0x80 <= b <= 0xBF }

  /** The second byte after the first byte c: the table of section 4 of RFC 3629 rules
      out overlong forms, surrogates and values beyond U+10FFFF. */
  predicate Second(c: Byte, b: Byte) {
    Continues(b) && (c == 0xE0 ==> b >= 0xA0) && (c == 0xED ==> b <= 0x9F) && (c == 0xF0 ==> b >= 0x90) && (c == 0xF4 ==> b <= 0x8F)
  }

  /** Bytes a first byte asks for, 1 if it is no first byte. */
  function Wanted(c: Byte): nat {
    if 0xC2 <= c <= 0xDF then 2 else if 0xE0 <= c <= 0xEF then 3 else if 0xF0 <= c <= 0xF4 then 4 else 1
  }

  /** The width DecodeRune returns: that of the character at the front of s, 1 for a byte
      that starts none. */
  function RuneLen(s: seq<Byte>): (n: nat)
    requires s != []
    ensures 1 <= n <= |s| && n <= 4
    ensures n > 1 ==> forall k | 0 <= k < n :: s[k] >= 0x80
  {
    var n := Wanted(s[0]);
    if n > 1 && |s| >= n && Second(s[0], s[1]) && (n > 2 ==> Continues(s[2])) && (n > 3 ==> Continues(s[3])) then n else 1
  }

  /** A whole character at the front. */
  predicate StartsWithRune(s: seq<Byte>)
    requires s != []
  {
    s[0] < 0x80 || RuneLen(s) > 1
  }

  predicate Valid(s: seq<Byte>)
    decreases |s|
  {
    s == [] || (StartsWithRune(s) && Valid(s[RuneLen(s)..]))
  }

  /** What follows a character does not matter. */
  lemma RuneLenPrefix(s: seq<Byte>, tail: seq<Byte>)
    requires s != [] && StartsWithRune(s)
    ensures RuneLen(s + tail) == RuneLen(s) && StartsWithRune(s + tail)
  {
  }

  lemma {:induction false} ValidConcat(a: seq<Byte>, b: seq<Byte>)
    requires Valid(a) && Valid(b)
    ensures Valid(a + b)
    decreases |a|
  {
    if a == [] {
      assert a + b == b;
    } else {
      RuneLenPrefix(a, b);
      var n := RuneLen(a);
      assert (a + b)[n..] == a[n..] + b;
      ValidConcat(a[n..], b);
    }
  }

  /** A single character is valid. */
  lemma FirstRune(s: seq<Byte>)
    requires s != [] && StartsWithRune(s)
    ensures Valid(s[..RuneLen(s)])
  {
    var n := RuneLen(s);
    var c := s[..n];
    assert RuneLen(c) == n && c[n..] == [];
  }

  // ----- encoding -----

  const RUNE_ERROR: int := 0xFFFD

  /** EncodeRune: surrogates and values out of range become U+FFFD. */
  function EncodeRune(r: int): (s: seq<Byte>)
    ensures 1 <= |s| <= 4
  {
    if 0 <= r <= 0x7F then [r]
    else if 0 <= r <= 0x7FF then [0xC0 + r / 0x40, 0x80 + r % 0x40]
    else if r < 0 || r > 0x10FFFF || 0xD800 <= r <= 0xDFFF then [0xEF, 0xBF, 0xBD]
    else if r <= 0xFFFF then [0xE0 + r / 0x1000, 0x80 + r / 0x40 % 0x40, 0x80 + r % 0x40]
    else [0xF0 + r / 0x40000, 0x80 + r / 0x1000 % 0x40, 0x80 + r / 0x40 % 0x40, 0x80 + r % 0x40]
  }

  function Bits2(a: int, b: int): int { (a - 0xC0) * 0x40 + (b - 0x80) }

  function Bits3(a: int, b: int, c: int): int { (a - 0xE0) * 0x1000 + (b - 0x80) * 0x40 + (c - 0x80) }

  function Bits4(a: int, b: int, c: int, d: int): int {
    (a - 0xF0) * 0x40000 + (b - 0x80) * 0x1000 + (c - 0x80) * 0x40 + (d - 0x80)
  }

  /** The value of the character at the front. */
  function RuneAt(s: seq<Byte>): int
    requires s != []
  {
    match RuneLen(s)
    case 1 => if s[0] < 0x80 then s[0] else RUNE_ERROR
    case 2 => Bits2(s[0], s[1])
    case 3 => Bits3(s[0], s[1], s[2])
    case _ => Bits4(s[0], s[1], s[2], s[3])
  }

  predicate IsRune(r: int) { 0 <= r <= 0x10FFFF && !(0xD800 <= r <= 0xDFFF) }

  /** Decoding undoes encoding, whatever follows. */
  lemma DecodeOfEncode(r: int, tail: seq<Byte>)
    requires IsRune(r)
    ensures var s := EncodeRune(r) + tail;
      StartsWithRune(s) && RuneLen(s) == |EncodeRune(r)| && RuneAt(s) == r
  {
    var e := EncodeRune(r);
    var s := e + tail;
    assert forall k | 0 <= k < |e| :: s[k] == e[k];
    hide EncodeRune, RuneLen, RuneAt;
    EncodeParts(r, e);
    DecodeParts(s, e);
  }

  /** The bytes are those of one character of the right value. */
  ghost predicate Encodes(e: seq<Byte>, r: int) {
    1 <= |e| <= 4 && Wanted(e[0]) == |e| && (|e| == 1 ==> e[0] == r < 0x80)
    && (|e| > 1 ==> Second(e[0], e[1])) && (|e| > 2 ==> Continues(e[2])) && (|e| > 3 ==> Continues(e[3]))
    && (|e| == 2 ==> r == Bits2(e[0], e[1]))
    && (|e| == 3 ==> r == Bits3(e[0], e[1], e[2]))
    && (|e| == 4 ==> r == Bits4(e[0], e[1], e[2], e[3]))
  }

  lemma EncodeParts(r: int, e: seq<Byte>)
    requires IsRune(r) && e == EncodeRune(r)
    ensures Encodes(e, r)
  {
    if r <= 0x7FF {
    } else if r <= 0xFFFF {
      Encodes3(r, e);
    } else {
      Encodes4(r, e);
    }
  }

  lemma Encodes3(r: int, e: seq<Byte>)
    requires IsRune(r) && 0x7FF < r <= 0xFFFF && e == EncodeRune(r)
    ensures Encodes(e, r)
  {
    var h := r / 0x40;
    assert r == h * 0x40 + r % 0x40;
    assert h == h / 0x40 * 0x40 + h % 0x40;
    assert r / 0x1000 == h / 0x40;
  }

  lemma Encodes4(r: int, e: seq<Byte>)
    requires IsRune(r) && 0xFFFF < r && e == EncodeRune(r)
    ensures Encodes(e, r)
  {
    var h := r / 0x40;
    var g := h / 0x40;
    assert r == h * 0x40 + r % 0x40;
    assert h == g * 0x40 + h % 0x40;
    assert g == g / 0x40 * 0x40 + g % 0x40;
    assert r / 0x1000 == g && r / 0x40000 == g / 0x40;
  }

  lemma DecodeParts(s: seq<Byte>, e: seq<Byte>)
    requires 1 <= |e| <= |s| && forall k | 0 <= k < |e| :: s[k] == e[k]
    ensures forall r | Encodes(e, r) :: StartsWithRune(s) && RuneLen(s) == |e| && RuneAt(s) == r
  {
  }

  /** Everything that is no character is encoded as U+FFFD. */
  lemma EncodeOfInvalid(r: int)
    requires !IsRune(r)
    ensures EncodeRune(r) == EncodeRune(RUNE_ERROR)
  {
  }

  /** What is no character, nor begins with one, decodes as U+FFFD of width 1. */
  lemma DecodeInvalid(s: seq<Byte>)
    requires s != [] && forall r | IsRune(r) :: !(EncodeRune(r) <= s)
    ensures RuneLen(s) == 1 && RuneAt(s) == RUNE_ERROR
  {
    if StartsWithRune(s) { EncodeOfDecode(s); }
  }

  /** Encoding undoes decoding. */
  lemma EncodeOfDecode(s: seq<Byte>)
    requires s != [] && StartsWithRune(s)
    ensures IsRune(RuneAt(s)) && EncodeRune(RuneAt(s)) == s[..RuneLen(s)]
  {
    hide EncodeRune;
    match RuneLen(s)
    case 1 => Encode1(s);
    case 2 => Encode2(s);
    case 3 => Encode3(s);
    case _ => Encode4(s);
  }

  lemma Encode1(s: seq<Byte>)
    requires s != [] && s[0] < 0x80
    ensures IsRune(s[0]) && EncodeRune(s[0]) == s[..1]
  {
  }

  lemma Encode2(s: seq<Byte>)
    requires s != [] && RuneLen(s) == 2
    ensures var r := Bits2(s[0], s[1]); IsRune(r) && EncodeRune(r) == s[..2]
  {
    Digits64(s[0] - 0xC0, s[1] - 0x80);
  }

  lemma Encode3(s: seq<Byte>)
    requires s != [] && RuneLen(s) == 3
    ensures var r := Bits3(s[0], s[1], s[2]); IsRune(r) && EncodeRune(r) == s[..3]
  {
    var a: int, b: int, c: int := s[0] - 0xE0, s[1] - 0x80, s[2] - 0x80;
    Digits64(a * 0x40 + b, c);
    Digits64(a, b);
    assert Bits3(s[0], s[1], s[2]) == (a * 0x40 + b) * 0x40 + c;
  }

  lemma Encode4(s: seq<Byte>)
    requires s != [] && RuneLen(s) == 4
    ensures var r := Bits4(s[0], s[1], s[2], s[3]); IsRune(r) && EncodeRune(r) == s[..4]
  {
    var a: int, b: int, c: int, d: int := s[0] - 0xF0, s[1] - 0x80, s[2] - 0x80, s[3] - 0x80;
    FourBytes(a, b, c, d);
    assert Bits4(s[0], s[1], s[2], s[3]) == ((a * 0x40 + b) * 0x40 + c) * 0x40 + d;
    hide EncodeRune;
  }

  lemma FourBytes(a: int, b: int, c: int, d: int)
    requires 0 <= a <= 4 && 0 <= b < 0x40 && 0 <= c < 0x40 && 0 <= d < 0x40
    requires 0x10 <= a * 0x40 + b < 0x110
    ensures var r := ((a * 0x40 + b) * 0x40 + c) * 0x40 + d;
      IsRune(r) && EncodeRune(r) == [0xF0 + a, 0x80 + b, 0x80 + c, 0x80 + d]
  {
    var r := ((a * 0x40 + b) * 0x40 + c) * 0x40 + d;
    Digits64((a * 0x40 + b) * 0x40 + c, d);
    Digits64(a * 0x40 + b, c);
    Digits64(a, b);
    assert r / 0x1000 == a * 0x40 + b && r / 0x40000 == a;
  }

  lemma Digits64(a: nat, b: nat)
    requires b < 0x40
    ensures (a * 0x40 + b) / 0x40 == a && (a * 0x40 + b) % 0x40 == b
  {
  }
}
