/** EscapeString and UnescapeString of package html, the second working in place. */
module Html {
  import opened Common
  import opened Utf8

  type Text = seq<Byte>

  const AMP: Byte := 38         // &
  const HASH: Byte := 35        // #
  const SEMICOLON: Byte := 59   // ;

  // ----- the tables of entity.go -----

  /** Names without their ampersand, and the one or two characters they stand for. */
  datatype Tables = Tables(entity: map<Text, int>, entity2: map<Text, (int, int)>)

  /** entity.go lines 2170-2172: no replacement is wider than its reference. */
  ghost predicate Fits(t: Tables) {
    && (forall name | name in t.entity :: |EncodeRune(t.entity[name])| <= |name| + 1)
    && (forall name | name in t.entity2 :: |EncodeRune(t.entity2[name].0)| + |EncodeRune(t.entity2[name].1)| <= |name| + 1)
  }

  type Entities = t: Tables | Fits(t) witness Tables(map[], map[])

  const LONGEST_WITHOUT_SEMICOLON: nat := 6

  /** escape.go lines 16-51 */
  const REPLACEMENTS: seq<int> := [
    0x20AC, 0x0081, 0x201A, 0x0192, 0x201E, 0x2026, 0x2020, 0x2021,
    0x02C6, 0x2030, 0x0160, 0x2039, 0x0152, 0x008D, 0x017D, 0x008F,
    0x0090, 0x2018, 0x2019, 0x201C, 0x201D, 0x2022, 0x2013, 0x2014,
    0x02DC, 0x2122, 0x0161, 0x203A, 0x0153, 0x009D, 0x017E, 0x0178]

  // ----- one reference, as the code reads it -----

  predicate IsDigit(c: Byte, hex: bool) { 48 <= c <= 57 || (hex && (97 <= c <= 102 || 65 <= c <= 70)) }

  function DigitValue(c: Byte): int { if c <= 57 then c - 48 else if c >= 97 then c - 97 + 10 else c - 65 + 10 }

  function Base(hex: bool): int { if hex then 16 else 10 }

  /** A rune is an int32. */
  function Int32(v: int): int { (v + 0x8000_0000) % 0x1_0000_0000 - 0x8000_0000 }

  /** Position of the first byte that is no digit, from position i on. */
  function DigitsEnd(s: Text, i: nat, hex: bool): (k: nat)
    requires i <= |s|
    ensures i <= k <= |s|
    decreases |s| - i
  {
    if i < |s| && IsDigit(s[i], hex) then DigitsEnd(s, i + 1, hex) else i
  }

  /** The digits read so far and those from position i on, as int32 arithmetic sees it. */
  function Accumulated(s: Text, i: nat, hex: bool, x: int): int
    requires i <= |s|
    decreases |s| - i
  {
    if i < |s| && IsDigit(s[i], hex) then Accumulated(s, i + 1, hex, Int32(Base(hex) * x + DigitValue(s[i]))) else x
  }

  /** A semicolon at position k is part of the reference. */
  function Past(s: Text, k: nat): (i: nat)
    requires k <= |s|
    ensures k <= i <= |s|
  {
    if k < |s| && s[k] == SEMICOLON then k + 1 else k
  }

  /** Lines 112-118 */
  function Replacement(x: int): int {
    if 0x80 <= x <= 0x9F then REPLACEMENTS[x - 0x80]
    else if x == 0 || 0xD800 <= x <= 0xDFFF || x > 0x10FFFF then RUNE_ERROR
    else x
  }

  /** Only the ampersand. */
  function Literal(s: Text): (Text, nat) { ([AMP], 1) }

  /** Lines 69-121: "&#": what is written, and how many bytes it stands for. */
  function Numeric(s: Text): (r: (Text, nat))
    requires |s| > 1
    ensures 1 <= r.1 <= |s| && |r.0| <= r.1
  {
    if |s| <= 3 then Literal(s)
    else
      var hex := s[2] == 120 || s[2] == 88;
      var start := if hex then 3 else 2;
      var i := Past(s, DigitsEnd(s, start, hex));
      if i <= 3 then Literal(s) else (EncodeRune(Replacement(Accumulated(s, start, hex, 0))), i)
  }

  predicate IsAlnum(c: Byte) { 97 <= c <= 122 || 65 <= c <= 90 || 48 <= c <= 57 }

  function NameEnd(s: Text, i: nat): (k: nat)
    requires i <= |s|
    ensures i <= k <= |s|
    decreases |s| - i
  {
    if i < |s| && IsAlnum(s[i]) then NameEnd(s, i + 1) else i
  }

  function Lookup(e: Entities, name: Text): int { if name in e.entity then e.entity[name] else 0 }

  function Lookup2(e: Entities, name: Text): (int, int) { if name in e.entity2 then e.entity2[name] else (0, 0) }

  /** Lines 150-158: the longest prefix of at most j bytes, and more than one, that is an
      entity. */
  function Prefix(e: Entities, name: Text, j: int): (r: Option<nat>)
    requires j <= |name|
    ensures r.Some? ==> 1 < r.value <= |name| && Lookup(e, name[..r.value]) != 0
    decreases j
  {
    if j <= 1 then None else if Lookup(e, name[..j]) != 0 then Some(j) else Prefix(e, name, j - 1)
  }

  /** Lines 126-163: a named reference. */
  function Named(e: Entities, s: Text): (r: (Text, nat))
    requires s != []
    ensures 1 <= r.1 <= |s| && |r.0| <= r.1
  {
    var i := Past(s, NameEnd(s, 1));
    var name := s[1..i];
    if name == [] then (s[..i], i)
    else if Lookup(e, name) != 0 then (EncodeRune(Lookup(e, name)), i)
    else if Lookup2(e, name).0 != 0 then (EncodeRune(Lookup2(e, name).0) + EncodeRune(Lookup2(e, name).1), i)
    else
      match Prefix(e, name, Min(|name| - 1, LONGEST_WITHOUT_SEMICOLON))
      case Some(j) => (EncodeRune(Lookup(e, name[..j])), j + 1)
      case None => (s[..i], i)
  }

  function Min(a: int, b: int): int { if a < b then a else b }

  /** What one reference at the front of s is replaced by, and its length. It is never
      shorter than what replaces it. */
  function Reference(e: Entities, s: Text): (r: (Text, nat))
    requires s != []
    ensures 1 <= r.1 <= |s| && |r.0| <= r.1
  {
    if |s| <= 1 then Literal(s) else if s[1] == HASH then Numeric(s) else Named(e, s)
  }

  /** Unescaping as a function of the text, from left to right. */
  function Unescaped(e: Entities, s: Text): (r: Text)
    ensures |r| <= |s|
    decreases |s|
  {
    if s == [] then []
    else if s[0] != AMP then [s[0]] + Unescaped(e, s[1..])
    else
      var r := Reference(e, s);
      r.0 + Unescaped(e, s[r.1..])
  }

  // ----- the code -----

  lemma AfterPut(was: Text, now: Text, at: nat, text: Text, src: nat)
    requires at + |text| <= src <= |was|
    requires now == was[..at] + text + was[at + |text|..]
    ensures |now| == |was| && now[..at + |text|] == was[..at] + text && now[src..] == was[src..]
  {
  }

  /** Line 56: unescapeEntity. It reads at src and writes at dst, not beyond what it has
      read. */
  method UnescapeEntity(e: Entities, b: array<Byte>, dst: nat, src: nat) returns (dst1: nat, src1: nat)
    requires dst <= src < b.Length && b[src] == AMP
    modifies b
    ensures var r := Reference(e, old(b[src..]));
      && dst1 == dst + |r.0| && src1 == src + r.1 && dst1 <= src1 <= b.Length
      && b[..dst1] == old(b[..dst]) + r.0
      && b[src1..] == old(b[src1..])
  {
    ghost var was := b[..];
    var s := b[src..];
    ghost var r := Reference(e, s);
    assert was[src..] == s;
    var out: Text, i: nat;
    if |s| <= 1 {
      out, i := [b[src]], 1;
    } else if s[1] == HASH {
      out, i := ReadNumeric(s);
    } else {
      out, i := ReadNamed(e, s);
    }
    CopyInto(b, dst, out);
    AfterPut(was, b[..], dst, out, src + i);
    assert b[..][..dst + |out|] == b[..dst + |out|] && b[..][src + i..] == b[src + i..];
    assert was[..dst] == old(b[..dst]) && was[src + i..] == old(b[src + i..]);
    dst1, src1 := dst + |out|, src + i;
  }

  /** Lines 69-121 */
  method ReadNumeric(s: Text) returns (out: Text, n: nat)
    requires |s| > 1 && s[0] == AMP
    ensures (out, n) == Numeric(s)
  {
    if |s| <= 3 {
      return [s[0]], 1;
    }
    var i := 2;
    var c := s[i];
    var hex := false;
    if c == 120 || c == 88 {
      hex := true;
      i := i + 1;
    }
    ghost var start := i;
    var x := 0;
    while i < |s|
      invariant start <= i <= |s|
      invariant Accumulated(s, start, hex, 0) == Accumulated(s, i, hex, x)
      invariant DigitsEnd(s, start, hex) == DigitsEnd(s, i, hex)
      decreases |s| - i
    {
      c := s[i];
      if !IsDigit(c, hex) {
        break;
      }
      x := Int32(Base(hex) * x + DigitValue(c));
      i := i + 1;
    }
    if i < |s| && s[i] == SEMICOLON {
      i := i + 1;
    }
    if i <= 3 {
      return [s[0]], 1;
    }
    return EncodeRune(Replacement(x)), i;
  }

  /** Lines 123-163 */
  method ReadNamed(e: Entities, s: Text) returns (out: Text, n: nat)
    requires |s| > 1
    ensures (out, n) == Named(e, s)
  {
    var i := 1;
    while i < |s|
      invariant 1 <= i <= |s| && NameEnd(s, 1) == NameEnd(s, i)
    {
      if !IsAlnum(s[i]) {
        break;
      }
      i := i + 1;
    }
    if i < |s| && s[i] == SEMICOLON {
      i := i + 1;
    }
    assert i == Past(s, NameEnd(s, 1));
    out, n := Replace(e, s, i);
  }

  /** Lines 139-163, the name reaching to position i. */
  method Replace(e: Entities, s: Text, i: nat) returns (out: Text, n: nat)
    requires s != [] && i == Past(s, NameEnd(s, 1))
    ensures (out, n) == Named(e, s)
  {
    hide NameEnd, Past, EncodeRune, Lookup, Lookup2, Prefix;
    var entityName := s[1..i];
    if |entityName| != 0 {
      var x := Lookup(e, entityName);
      if x != 0 {
        return EncodeRune(x), i;
      }
      var x2 := Lookup2(e, entityName);
      if x2.0 != 0 {
        return EncodeRune(x2.0) + EncodeRune(x2.1), i;
      }
      var maxLen := |entityName| - 1;
      if maxLen > LONGEST_WITHOUT_SEMICOLON {
        maxLen := LONGEST_WITHOUT_SEMICOLON;
      }
      var j := LongestPrefix(e, entityName, maxLen);
      if j.Some? {
        return EncodeRune(Lookup(e, entityName[..j.value])), j.value + 1;
      }
    }
    return s[..i], i;
  }

  /** Lines 154-158 */
  method LongestPrefix(e: Entities, entityName: Text, maxLen: int) returns (r: Option<nat>)
    requires maxLen <= |entityName|
    ensures r == Prefix(e, entityName, maxLen)
  {
    hide Lookup;
    var j := maxLen;
    while j > 1
      invariant j <= maxLen && Prefix(e, entityName, maxLen) == Prefix(e, entityName, j)
    {
      if Lookup(e, entityName[..j]) != 0 {
        return Some(j);
      }
      j := j - 1;
    }
    return None;
  }

  lemma {:induction false} UnescapedPlain(e: Entities, s: Text, i: nat)
    requires i <= |s| && AMP !in s[..i]
    ensures Unescaped(e, s) == s[..i] + Unescaped(e, s[i..])
    decreases i
  {
    hide Unescaped;
    if i == 0 {
      assert s[0..] == s && [] + Unescaped(e, s) == Unescaped(e, s);
    } else {
      assert s[0] == s[..i][0] && s[1..][..i - 1] == s[..i][1..] && s[1..][i - 1..] == s[i..];
      UnescapedPlain(e, s[1..], i - 1);
      UnescapedOne(e, s);
      Assoc([s[0]], s[1..][..i - 1], Unescaped(e, s[i..]));
      assert s[..i] == [s[0]] + s[1..][..i - 1];
    }
  }

  lemma UnescapedOne(e: Entities, s: Text)
    requires s != [] && s[0] != AMP
    ensures Unescaped(e, s) == [s[0]] + Unescaped(e, s[1..])
  {
    hide Reference;
  }

  /** Line 187: UnescapeString overwrites its own copy of s, always behind the position
      it reads from, and so computes the function. */
  method UnescapeString(e: Entities, s: Text) returns (r: Text)
    ensures r == Unescaped(e, s)
  {
    hide Unescaped, Reference;
    var i := IndexByte(s, AMP);
    IndexByteSpec(s, AMP);
    if i < 0 {
      assert s[..|s|] == s;
      UnescapedPlain(e, s, |s|);
      assert Unescaped(e, s[|s|..]) == [] && s + [] == s by { UnescapedEmpty(e); }
      return s;
    }
    var b := new Byte[|s|](k requires 0 <= k < |s| => s[k]);
    assert b[..] == s;
    var dst, src := 0, 0;
    assert s[0..] == s && [] + Unescaped(e, s) == Unescaped(e, s);
    dst, src := Step(e, s, b, 0, 0, i);
    while |s[src..]| > 0
      invariant b.Length == |s| && 0 <= dst <= src <= |s|
      invariant b[src..] == s[src..]
      invariant b[..dst] + Unescaped(e, s[src..]) == Unescaped(e, s)
      decreases |s| - src
    {
      var rest := s[src..];
      i := IndexByte(rest, AMP);
      IndexByteSpec(rest, AMP);
      if i < 0 {
        assert rest[..|rest|] == rest;
        UnescapedPlain(e, rest, |rest|);
        UnescapedEmpty(e);
        assert rest + [] == rest;
        ghost var was := b[..];
        CopyInto(b, dst, rest);
        AfterPut(was, b[..], dst, rest, |s|);
        assert was[..dst] + rest == b[..dst + |rest|];
        dst := dst + |rest|;
        return b[..dst];
      }
      dst, src := Step(e, s, b, dst, src, i);
    }
    UnescapedEmpty(e);
    assert s[src..] == [] && b[..dst] + [] == b[..dst];
    return b[..dst];
  }

  /** Lines 208-211: the text before the next reference is moved down, then the
      reference is replaced. */
  method Step(e: Entities, s: Text, b: array<Byte>, dst: nat, src: nat, i: nat) returns (dst1: nat, src1: nat)
    requires b.Length == |s| && dst <= src && src + i < |s| && s[src + i] == AMP && AMP !in s[src..][..i]
    requires b[src..] == s[src..]
    requires b[..dst] + Unescaped(e, s[src..]) == Unescaped(e, s)
    modifies b
    ensures dst1 <= src1 <= |s| && src < src1
    ensures b[src1..] == s[src1..]
    ensures b[..dst1] + Unescaped(e, s[src1..]) == Unescaped(e, s)
  {
    hide Unescaped, Reference;
    ghost var front, ref := b[..dst], s[src + i..];
    var plain := s[src..src + i];
    PlainPart(e, s, src, i);
    Move(s, b, dst, src, i);
    assert b[src + i] == ref[0] by { assert b[src + i] == b[src + i..][0]; }
    dst1, src1 := UnescapeEntity(e, b, dst + i, src + i);
    ghost var r := Reference(e, ref);
    UnescapedAmp(e, ref);
    assert ref[r.1..] == s[src1..];
    Regroup(front, plain, r.0, Unescaped(e, s[src1..]));
  }

  lemma PlainPart(e: Entities, s: Text, src: nat, i: nat)
    requires src + i <= |s| && AMP !in s[src..][..i]
    ensures Unescaped(e, s[src..]) == s[src..src + i] + Unescaped(e, s[src + i..])
  {
    hide Unescaped;
    var rest := s[src..];
    assert rest[..i] == s[src..src + i] && rest[i..] == s[src + i..];
    UnescapedPlain(e, rest, i);
  }

  /** Line 209: copy(b[dst:], s[src:src+i]) leaves everything from src + i on alone. */
  method Move(s: Text, b: array<Byte>, dst: nat, src: nat, i: nat)
    requires b.Length == |s| && dst <= src && src + i <= |s| && b[src..] == s[src..]
    modifies b
    ensures b[..dst + i] == old(b[..dst]) + s[src..src + i]
    ensures forall k | src + i <= k <= |s| :: b[k..] == s[k..]
  {
    ghost var was := b[..];
    var plain := s[src..src + i];
    CopyInto(b, dst, plain);
    AfterPut(was, b[..], dst, plain, src + i);
    assert b[..dst + i] == b[..][..dst + i];
    assert was[..dst] == old(b[..dst]);
    forall k | src + i <= k <= |s|
      ensures b[k..] == s[k..]
    {
      assert b[k..] == b[..][src + i..][k - src - i..];
      assert s[k..] == s[src..][k - src..] && was[k..] == was[src..][k - src..];
      assert was[k..] == was[src + i..][k - src - i..];
    }
  }

  lemma Regroup(a: Text, b: Text, c: Text, d: Text)
    ensures a + (b + (c + d)) == ((a + b) + c) + d
  {
  }

  lemma UnescapedEmpty(e: Entities)
    ensures Unescaped(e, []) == []
  {
  }

  lemma UnescapedAmp(e: Entities, s: Text)
    requires s != [] && s[0] == AMP
    ensures var r := Reference(e, s); Unescaped(e, s) == r.0 + Unescaped(e, s[r.1..])
  {
  }

  // ----- escaping -----

  /** Lines 166-172 */
  function EscapedByte(c: Byte): Text {
    if c == 38 then [38, 97, 109, 112, 59]       // &amp;
    else if c == 39 then [38, 35, 51, 57, 59]    // &#39;
    else if c == 60 then [38, 108, 116, 59]      // &lt;
    else if c == 62 then [38, 103, 116, 59]      // &gt;
    else if c == 34 then [38, 35, 51, 52, 59]    // &#34;
    else [c]
  }

  /** Line 178: EscapeString replaces byte by byte. */
  function EscapeString(s: Text): Text { if s == [] then [] else EscapedByte(s[0]) + EscapeString(s[1..]) }

  /** The three names EscapeString relies on. */
  predicate HasBasics(e: Entities) {
    && Lookup(e, [97, 109, 112, 59]) == 38
    && Lookup(e, [108, 116, 59]) == 60
    && Lookup(e, [103, 116, 59]) == 62
  }

  lemma EscapedByteBack(e: Entities, c: Byte, tail: Text)
    requires HasBasics(e) && EscapedByte(c)[0] == AMP
    ensures Reference(e, EscapedByte(c) + tail) == ([c], |EscapedByte(c)|)
  {
    hide Reference, Lookup, Lookup2, Replacement, LongestFront;
    if c == 39 || c == 34 {
      var ds: Text := if c == 39 then [51, 57] else [51, 52];
      assert ds[..1][..0] == [] && ds[..1] == [51];
      assert Number(ds, false) == 10 * Number(ds[..1], false) + (if c == 39 then 9 else 4);
      assert Number(ds[..1], false) == 3;
      NumericReference(e, [], ds, true, tail);
      assert EscapedByte(c) == NumericText([], ds, true);
      ReplacedByItself(c);
    } else {
      var name := EscapedByte(c)[1..];
      assert EscapedByte(38)[1..] == [97, 109, 112, 59];
      assert EscapedByte(60)[1..] == [108, 116, 59] && EscapedByte(62)[1..] == [103, 116, 59];
      NamedReference(e, name, tail);
      assert [AMP] + name == EscapedByte(c);
    }
  }

  lemma ReplacedByItself(c: Byte)
    requires 0 < c < 0x80
    ensures EncodeRune(Replacement(Int32(c))) == [c]
  {
    assert Int32(c) == c;
    hide Int32;
    assert Replacement(c) == c;
    hide Replacement;
  }

  /** Lines 176-177: UnescapeString(EscapeString(s)) == s always holds. */
  lemma {:induction false} RoundTrip(e: Entities, s: Text)
    requires HasBasics(e)
    ensures Unescaped(e, EscapeString(s)) == s
    decreases s
  {
    if s == [] {
    } else {
      hide HasBasics, Unescaped, EscapedByte;
      RoundTrip(e, s[1..]);
      UnescapedByte(e, s[0], EscapeString(s[1..]));
      assert s == [s[0]] + s[1..];
    }
  }

  lemma UnescapedByte(e: Entities, c: Byte, tail: Text)
    requires HasBasics(e)
    ensures Unescaped(e, EscapedByte(c) + tail) == [c] + Unescaped(e, tail)
  {
    hide Reference, HasBasics, Unescaped;
    var w := EscapedByte(c) + tail;
    if EscapedByte(c)[0] == AMP {
      EscapedByteBack(e, c, tail);
      UnescapedAmp(e, w);
      assert w[|EscapedByte(c)|..] == tail;
    } else {
      assert w[0] == c && w[1..] == tail;
      UnescapedOne(e, w);
    }
  }

  // ----- numeric references -----

  /** The value of the digits, without the limits of int32. */
  function Value(s: Text, i: nat, hex: bool, x: nat): nat
    requires i <= |s|
    decreases |s| - i
  {
    if i < |s| && IsDigit(s[i], hex) then Value(s, i + 1, hex, Base(hex) * x + DigitValue(s[i])) else x
  }

  /** int32 arithmetic gives the value modulo 2^32. */
  lemma {:induction false} AccumulatedIs(s: Text, i: nat, hex: bool, x: nat)
    requires i <= |s|
    ensures Accumulated(s, i, hex, Int32(x)) == Int32(Value(s, i, hex, x))
    decreases |s| - i
  {
    if i < |s| && IsDigit(s[i], hex) {
      Int32Step(Base(hex), x, DigitValue(s[i]));
      AccumulatedIs(s, i + 1, hex, Base(hex) * x + DigitValue(s[i]));
    }
  }

  lemma Int32Step(b: int, x: nat, d: int)
    requires b == 10 || b == 16
    ensures Int32(b * Int32(x) + d) == Int32(b * x + d)
  {
  }

  /** What the value v ought to be replaced by: the comment of line 116 promises U+FFFD
      for every number that is no character. */
  function Meant(v: nat): Text { EncodeRune(Replacement(v)) }

  /** Replaced by U+FFFD as well. */
  predicate Harmless(w: nat) { w == 0 || w == RUNE_ERROR || !IsRune(w) }

  /** The promise is kept unless the value, too large for a character, turns into one by
      wrapping around in int32. */
  lemma NumericCorrectIff(s: Text, start: nat, hex: bool)
    requires start <= |s|
    ensures var v := Value(s, start, hex, 0);
      EncodeRune(Replacement(Accumulated(s, start, hex, 0))) == Meant(v) <==> v <= 0x10FFFF || Harmless(v % 0x1_0000_0000)
  {
    hide EncodeRune, Replacement, Accumulated, Value;
    AccumulatedIs(s, start, hex, 0);
    var v := Value(s, start, hex, 0);
    WrappedIff(v);
  }

  lemma WrappedIff(v: nat)
    ensures EncodeRune(Replacement(Int32(v))) == Meant(v) <==> v <= 0x10FFFF || Harmless(v % 0x1_0000_0000)
  {
    hide EncodeRune;
    var w := v % 0x1_0000_0000;
    if v <= 0x10FFFF {
      assert Int32(v) == v;
    } else {
      assert Replacement(v) == RUNE_ERROR;
      if 1 <= w <= 0x10FFFF && IsRune(w) {
        assert Int32(v) == w;
        ReplacementIsRune(w);
        EncodeInjective(Replacement(w), RUNE_ERROR);
      } else if w >= 0x8000_0000 {
        assert Int32(v) < 0;
        EncodeOfInvalid(Int32(v));
      } else {
        assert Int32(v) == w && Replacement(w) == RUNE_ERROR;
      }
    }
  }

  lemma ReplacementIsRune(w: int)
    requires IsRune(w) && w != 0
    ensures IsRune(Replacement(w)) && (Replacement(w) == RUNE_ERROR <==> w == RUNE_ERROR)
  {
  }

  lemma EncodeInjective(a: int, b: int)
    requires IsRune(a) && IsRune(b)
    ensures EncodeRune(a) == EncodeRune(b) <==> a == b
  {
    DecodeOfEncode(a, []);
    DecodeOfEncode(b, []);
  }

  /** &#x100000041; */
  const WRAPPING: Text := [38, 35, 120, 49, 48, 48, 48, 48, 48, 48, 52, 49, 59]

  /** It is read as "A". */
  lemma NumericWraps(e: Entities)
    ensures Reference(e, WRAPPING) == ([65], 13)
  {
    hide EncodeRune, Replacement, Accumulated, DigitsEnd, Value;
    WrappingEnd();
    WrappingValue();
    Wraps(WRAPPING);
  }

  lemma WrappingEnd()
    ensures DigitsEnd(WRAPPING, 3, true) == 12
  {
    var s := WRAPPING;
    assert DigitsEnd(s, 12, true) == 12 == DigitsEnd(s, 11, true) == DigitsEnd(s, 10, true);
    assert DigitsEnd(s, 9, true) == 12 == DigitsEnd(s, 8, true) == DigitsEnd(s, 7, true);
    assert DigitsEnd(s, 6, true) == 12 == DigitsEnd(s, 5, true) == DigitsEnd(s, 4, true);
  }

  lemma WrappingValue()
    ensures Value(WRAPPING, 3, true, 0) == 0x1_0000_0041
  {
    hide Value;
    var s := WRAPPING;
    ValueStep(s, 3, 0);
    ValueStep(s, 4, 1);
    ValueStep(s, 5, 0x10);
    ValueStep(s, 6, 0x100);
    ValueStep(s, 7, 0x1000);
    ValueStep(s, 8, 0x10000);
    ValueStep(s, 9, 0x100000);
    ValueStep(s, 10, 0x1000000);
    ValueStep(s, 11, 0x10000004);
    ValueStep(s, 12, 0x100000041);
  }

  lemma ValueStep(s: Text, i: nat, x: nat)
    requires i < |s|
    ensures Value(s, i, true, x) == if IsDigit(s[i], true) then Value(s, i + 1, true, 16 * x + DigitValue(s[i])) else x
  {
  }

  lemma Wraps(s: Text)
    requires |s| == 13 && Value(s, 3, true, 0) == 0x1_0000_0041
    ensures EncodeRune(Replacement(Accumulated(s, 3, true, 0))) == [65]
  {
    hide Accumulated, Value;
    assert Int32(0) == 0 && Int32(0x1_0000_0041) == 65;
    AccumulatedIs(s, 3, true, 0);
  }

  // ----- named references -----

  /** A name as far as it can be read: letters and digits, and a semicolon if one follows. */
  predicate IsName(name: Text, rest: Text) {
    && name != []
    && (forall k | 0 <= k < |name| - 1 :: IsAlnum(name[k]))
    && (name[|name| - 1] == SEMICOLON || (IsAlnum(name[|name| - 1]) && (rest == [] || !(IsAlnum(rest[0]) || rest[0] == SEMICOLON))))
  }

  lemma {:induction false} NameEndIs(s: Text, i: nat, k: nat)
    requires i <= k <= |s| && (forall j | i <= j < k :: IsAlnum(s[j])) && (k < |s| ==> !IsAlnum(s[k]))
    ensures NameEnd(s, i) == k
    decreases k - i
  {
    if i < k { NameEndIs(s, i + 1, k); }
  }

  /** The name that is looked up. */
  lemma NameRead(name: Text, rest: Text)
    requires IsName(name, rest)
    ensures var s := [AMP] + name + rest; Past(s, NameEnd(s, 1)) == |name| + 1 && s[1..|name| + 1] == name && s[..|name| + 1] == [AMP] + name
  {
    var s, n := [AMP] + name + rest, |name|;
    assert forall j | 1 <= j <= n :: s[j] == name[j - 1];
    assert n + 1 < |s| ==> s[n + 1] == rest[0];
    NameEndIs(s, 1, if name[n - 1] == SEMICOLON then n else n + 1);
    assert s[1..n + 1] == name && s[..n + 1] == [AMP] + name;
  }

  /** The first j bytes are a name of the table that may stand without a semicolon, and no
      longer front of the name is one. */
  ghost predicate LongestFront(e: Entities, name: Text, j: int) {
    && 1 < j < |name| && j <= 6 && Lookup(e, name[..j]) != 0
    && forall k | j < k < |name| && k <= 6 :: Lookup(e, name[..k]) == 0
  }

  lemma {:induction false} PrefixIs(e: Entities, name: Text, m: int, j: nat)
    requires m <= |name|
    ensures Prefix(e, name, m) == Some(j) <==> 1 < j <= m && Lookup(e, name[..j]) != 0 && forall k | j < k <= m :: Lookup(e, name[..k]) == 0
    ensures Prefix(e, name, m) == None <==> forall k | 1 < k <= m :: Lookup(e, name[..k]) == 0
    decreases m
  {
    hide Lookup;
    if m > 1 { PrefixIs(e, name, m - 1, j); }
  }

  lemma LongestIff(e: Entities, name: Text, j: nat)
    ensures var r := Prefix(e, name, Min(|name| - 1, LONGEST_WITHOUT_SEMICOLON));
      && (r == Some(j) <==> LongestFront(e, name, j))
      && (r == None <==> forall k: nat | 1 < k < |name| && k <= 6 :: Lookup(e, name[..k]) == 0)
  {
    hide Lookup;
    PrefixIs(e, name, Min(|name| - 1, LONGEST_WITHOUT_SEMICOLON), j);
  }

  /** A name is replaced by what the tables have for the whole of it, or else for its longest
      front, and left as it is if they have nothing. */
  lemma NamedReference(e: Entities, name: Text, rest: Text)
    requires IsName(name, rest)
    ensures var r := Reference(e, [AMP] + name + rest); var one, two := Lookup(e, name), Lookup2(e, name);
      && (one != 0 ==> r == (EncodeRune(one), |name| + 1))
      && (one == 0 && two.0 != 0 ==> r == (EncodeRune(two.0) + EncodeRune(two.1), |name| + 1))
      && (one == 0 && two.0 == 0 ==>
            && (forall j: nat | LongestFront(e, name, j) :: r == (EncodeRune(Lookup(e, name[..j])), j + 1))
            && ((forall k: nat | 1 < k < |name| && k <= 6 :: Lookup(e, name[..k]) == 0) ==> r == ([AMP] + name, |name| + 1)))
  {
    hide EncodeRune, Lookup, Lookup2, Prefix, NameEnd, LongestFront, Numeric;
    NameRead(name, rest);
    NoHash(name, rest);
    var s := [AMP] + name + rest;
    assert s[1] == name[0];
    forall j: nat
      ensures var r := Prefix(e, name, Min(|name| - 1, LONGEST_WITHOUT_SEMICOLON));
        && (r == Some(j) <==> LongestFront(e, name, j))
        && (r == None <==> forall k: nat | 1 < k < |name| && k <= 6 :: Lookup(e, name[..k]) == 0)
    {
      LongestIff(e, name, j);
    }
  }

  lemma NoHash(name: Text, rest: Text)
    requires IsName(name, rest)
    ensures name[0] != HASH
  {
  }

  /** An ampersand before anything else stays. */
  lemma NoReference(e: Entities, rest: Text)
    requires rest == [] || !(IsAlnum(rest[0]) || rest[0] == SEMICOLON || rest[0] == HASH)
    ensures Reference(e, [AMP] + rest) == ([AMP], 1)
  {
    var s := [AMP] + rest;
    if rest != [] {
      assert NameEnd(s, 1) == 1 && s[1..1] == [] && s[..1] == [AMP];
    }
  }

  // ----- which numeric references are taken -----

  /** The number in decimal or hexadecimal digits. */
  function Number(ds: Text, hex: bool): nat
    requires forall k | 0 <= k < |ds| :: IsDigit(ds[k], hex)
  {
    if ds == [] then 0
    else
      var n := Number(ds[..|ds| - 1], hex);
      assert IsDigit(ds[|ds| - 1], hex);
      (if hex then 16 * n else 10 * n) + DigitValue(ds[|ds| - 1])
  }

  lemma {:induction false} ValueSnoc(s: Text, i: nat, k: nat, hex: bool)
    requires i <= k <= |s| && (forall j | i <= j < k :: IsDigit(s[j], hex)) && (k < |s| ==> !IsDigit(s[k], hex))
    ensures forall j | 0 <= j < |s[i..k]| :: IsDigit(s[i..k][j], hex)
    ensures DigitsEnd(s, i, hex) == k && Value(s, i, hex, 0) == Number(s[i..k], hex)
    decreases k - i
  {
    hide IsDigit, DigitValue, Base;
    DigitsFrom(s, i, i, k, hex);
    assert s[i..i] == [];
  }

  lemma {:induction false} DigitsFrom(s: Text, start: nat, i: nat, k: nat, hex: bool)
    requires start <= i <= k <= |s| && (forall j | start <= j < k :: IsDigit(s[j], hex)) && (k < |s| ==> !IsDigit(s[k], hex))
    ensures forall n, j | i <= n <= k && 0 <= j < |s[start..n]| :: IsDigit(s[start..n][j], hex)
    ensures DigitsEnd(s, i, hex) == k && Value(s, i, hex, Number(s[start..i], hex)) == Number(s[start..k], hex)
    decreases k - i
  {
    hide IsDigit, DigitValue;
    if i < k {
      assert s[start..i + 1][..i - start] == s[start..i];
      DigitsFrom(s, start, i + 1, k, hex);
    }
  }

  /** "&#", an "x" if the digits are hexadecimal, the digits, and a semicolon or not. */
  function NumericText(x: Text, ds: Text, semicolon: bool): Text { [AMP, HASH] + x + ds + if semicolon then [SEMICOLON] else [] }

  /** Such a reference is taken if it has more than three characters (line 107), and then for
      the character of its number as far as int32 goes. */
  lemma NumericReference(e: Entities, x: Text, ds: Text, semicolon: bool, rest: Text)
    requires x == [] || x == [120] || x == [88]
    requires forall k | 0 <= k < |ds| :: IsDigit(ds[k], x != [])
    requires !semicolon && rest != [] ==> rest[0] != SEMICOLON && !IsDigit(rest[0], x != []) && (x == [] && ds == [] ==> rest[0] != 120 && rest[0] != 88)
    ensures var t := NumericText(x, ds, semicolon);
      Reference(e, t + rest) == if |t| > 3 then (EncodeRune(Replacement(Int32(Number(ds, x != [])))), |t|) else ([AMP], 1)
  {
    hide EncodeRune, Replacement, Accumulated, Value, DigitsEnd, Number;
    var t := NumericText(x, ds, semicolon);
    var s, hex := t + rest, x != [];
    var start := 2 + |x|;
    var k := start + |ds|;
    NumericParts(x, ds, semicolon, rest);
    if |s| > 3 {
      assert (s[2] == 120 || s[2] == 88) == hex by { HexSign(x, ds, semicolon, rest); }
      ValueSnoc(s, start, k, hex);
      AccumulatedIs(s, start, hex, 0);
      assert Int32(0) == 0;
    }
  }

  lemma NumericParts(x: Text, ds: Text, semicolon: bool, rest: Text)
    requires |x| <= 1
    requires forall k | 0 <= k < |ds| :: IsDigit(ds[k], x != [])
    requires !semicolon && rest != [] ==> rest[0] != SEMICOLON && !IsDigit(rest[0], x != [])
    ensures var s, start := NumericText(x, ds, semicolon) + rest, 2 + |x|; var k := start + |ds|;
      && |s| == k + (if semicolon then 1 else 0) + |rest| && s[0] == AMP && s[1] == HASH && s[start..k] == ds
      && (forall j | start <= j < k :: IsDigit(s[j], x != [])) && (k < |s| ==> !IsDigit(s[k], x != []))
      && Past(s, k) == |NumericText(x, ds, semicolon)| && |NumericText(x, ds, semicolon)| == k + if semicolon then 1 else 0
  {
    var s, start := NumericText(x, ds, semicolon) + rest, 2 + |x|;
    var k := start + |ds|;
    assert s == ([AMP, HASH] + x) + ds + ((if semicolon then [SEMICOLON] else []) + rest);
    assert |[AMP, HASH] + x| == start && s[0] == AMP && s[1] == HASH && s[start..k] == ds;
    assert forall j | start <= j < k :: s[j] == ds[j - start];
    if semicolon { assert s[k] == SEMICOLON; } else if rest != [] { assert s[k] == rest[0]; }
  }

  lemma HexSign(x: Text, ds: Text, semicolon: bool, rest: Text)
    requires x == [] || x == [120] || x == [88]
    requires forall k | 0 <= k < |ds| :: IsDigit(ds[k], x != [])
    requires !semicolon && rest != [] ==> x == [] && ds == [] ==> rest[0] != 120 && rest[0] != 88
    requires |NumericText(x, ds, semicolon) + rest| > 2
    ensures var s := NumericText(x, ds, semicolon) + rest; (s[2] == 120 || s[2] == 88) == (x != [])
  {
    var s := NumericText(x, ds, semicolon) + rest;
    assert s[2] == (if x != [] then x[0] else if ds != [] then ds[0] else if semicolon then SEMICOLON else rest[0]);
  }

  /** A reference with digits is taken and one without is left alone, as line 107 says, unless it
      is a single decimal digit without a semicolon, or has none between "x" and ";". */
  lemma NumericTakenIff(e: Entities, x: Text, ds: Text, semicolon: bool, rest: Text)
    requires x == [] || x == [120] || x == [88]
    requires forall k | 0 <= k < |ds| :: IsDigit(ds[k], x != [])
    requires !semicolon && rest != [] ==> rest[0] != SEMICOLON && !IsDigit(rest[0], x != []) && (x == [] && ds == [] ==> rest[0] != 120 && rest[0] != 88)
    ensures var t := NumericText(x, ds, semicolon); var taken := Reference(e, t + rest).1 > 1;
      (taken <==> ds != []) <==> !(x == [] && |ds| == 1 && !semicolon) && !(x != [] && ds == [] && semicolon)
  {
    hide EncodeRune, Replacement, Number;
    NumericReference(e, x, ds, semicolon, rest);
  }

  // ----- what escaping is for -----

  /** The characters with a meaning in HTML, apart from the ampersand. */
  predicate IsSpecial(c: Byte) { c == 60 || c == 62 || c == 34 || c == 39 }

  /** None of them is left, and nothing else is changed but the ampersand. */
  lemma {:induction false} EscapedSafe(s: Text)
    ensures forall k | 0 <= k < |EscapeString(s)| :: !IsSpecial(EscapeString(s)[k])
    ensures (forall k | 0 <= k < |s| :: !IsSpecial(s[k]) && s[k] != AMP) ==> EscapeString(s) == s
    decreases s
  {
    hide EscapedByte, IsSpecial;
    if s != [] {
      EscapedSafe(s[1..]);
      ByteSafe(s[0]);
      assert s == [s[0]] + s[1..];
      if forall k | 0 <= k < |s| :: !IsSpecial(s[k]) && s[k] != AMP {
        assert forall k | 0 <= k < |s[1..]| :: s[1..][k] == s[k + 1];
      }
    }
  }

  lemma ByteSafe(b: Byte)
    ensures forall k | 0 <= k < |EscapedByte(b)| :: !IsSpecial(EscapedByte(b)[k])
    ensures !IsSpecial(b) && b != AMP ==> EscapedByte(b) == [b]
  {
  }
}
