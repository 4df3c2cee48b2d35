/** Standard base64 with padding (package encoding/base64, section 4 of RFC 4648). */
module Base64 {
  import opened Common

  type Text = seq<Byte>

  const PAD: Byte := 61  // =

  /** The value of a character of the alphabet, -1 for any other. */
  function Value(c: Byte): (v: int)
    ensures -1 <= v < 64
  {
    if 65 <= c <= 90 then c - 65
    else if 97 <= c <= 122 then c - 97 + 26
    else if 48 <= c <= 57 then c - 48 + 52
    else if c == 43 then 62
    else if c == 47 then 63
    else -1
  }

  function Char(v: int): (c: Byte)
    requires 0 <= v < 64
    ensures Value(c) == v && c != PAD
  {
    if v < 26 then v + 65 else if v < 52 then v - 26 + 97 else if v < 62 then v - 52 + 48 else if v == 62 then 43 else 47
  }

  /** Line breaks are ignored wherever they are. */
  function Stripped(s: Text): (r: Text)
    ensures |r| <= |s|
  {
    if s == [] then [] else (if s[0] == 10 || s[0] == 13 then [] else [s[0]]) + Stripped(s[1..])
  }

  function First(a: int, b: int): Byte
    requires 0 <= a < 64 && 0 <= b < 64
  {
    a * 4 + b / 16
  }

  function Second(b: int, c: int): Byte
    requires 0 <= b < 64 && 0 <= c < 64
  {
    b % 16 * 16 + c / 4
  }

  function Third(c: int, d: int): Byte
    requires 0 <= c < 64 && 0 <= d < 64
  {
    c % 4 * 64 + d
  }

  /** decodeQuantum, one after the other: four characters give three bytes, and only the
      last four may be padded. */
  function Quanta(t: Text): Option<Text> {
    if t == [] then Some([])
    else if |t| < 4 || Value(t[0]) < 0 || Value(t[1]) < 0 then None
    else
      var a, b := Value(t[0]), Value(t[1]);
      if t[2] == PAD then (if |t| == 4 && t[3] == PAD then Some([First(a, b)]) else None)
      else if Value(t[2]) < 0 then None
      else
        var c := Value(t[2]);
        if t[3] == PAD then (if |t| == 4 then Some([First(a, b), Second(b, c)]) else None)
        else if Value(t[3]) < 0 then None
        else
          match Quanta(t[4..])
          case None => None
          case Some(rest) => Some([First(a, b), Second(b, c), Third(c, Value(t[3]))] + rest)
  }

  /** DecodeString, None for its error. */
  function Decoded(s: Text): Option<Text> { Quanta(Stripped(s)) }

  /** DecodedLen: at most three bytes for four characters. */
  lemma DecodedLength(s: Text)
    ensures Decoded(s).Some? ==> 4 * |Decoded(s).value| <= 3 * |s|
  {
    QuantaLength(Stripped(s));
  }

  lemma {:induction false} QuantaLength(t: Text)
    ensures Quanta(t).Some? ==> 4 * |Quanta(t).value| <= 3 * |t|
    decreases |t|
  {
    hide Value, First, Second, Third;
    if |t| >= 4 { QuantaLength(t[4..]); }
  }

  /** EncodeToString */
  function Encoded(w: Text): Text {
    if w == [] then []
    else if |w| == 1 then [Char(w[0] / 4), Char(w[0] % 4 * 16), PAD, PAD]
    else if |w| == 2 then [Char(w[0] / 4), Char(w[0] % 4 * 16 + w[1] / 16), Char(w[1] % 16 * 4), PAD]
    else
      [Char(w[0] / 4), Char(w[0] % 4 * 16 + w[1] / 16), Char(w[1] % 16 * 4 + w[2] / 64), Char(w[2] % 64)] + Encoded(w[3..])
  }

  /** Decoding undoes encoding, for every byte string. */
  lemma DecodedOfEncoded(w: Text)
    ensures Decoded(Encoded(w)) == Some(w)
  {
    NothingStripped(w);
    QuantaOfEncoded(w);
  }

  lemma {:induction false} QuantaOfEncoded(w: Text)
    ensures Quanta(Encoded(w)) == Some(w)
    decreases |w|
  {
    if |w| >= 3 {
      QuantaOfEncoded(w[3..]);
      var e := Encoded(w);
      assert e[4..] == Encoded(w[3..]);
      SplitByte(w[0], w[1], w[2]);
      assert w == [w[0], w[1], w[2]] + w[3..];
    } else if |w| == 2 {
      SplitByte(w[0], w[1], 0);
      assert w == [w[0], w[1]];
    } else if |w| == 1 {
      SplitByte(w[0], 0, 0);
      assert w == [w[0]];
    }
  }

  lemma SplitByte(x: Byte, y: Byte, z: Byte)
    ensures First(x / 4, x % 4 * 16 + y / 16) == x
    ensures Second(x % 4 * 16 + y / 16, y % 16 * 4 + z / 64) == y
    ensures Third(y % 16 * 4 + z / 64, z % 64) == z
  {
  }

  lemma {:induction false} NothingStripped(w: Text)
    ensures Stripped(Encoded(w)) == Encoded(w)
    decreases |w|
  {
    var e := Encoded(w);
    if w != [] {
      if |w| >= 3 {
        NothingStripped(w[3..]);
        assert e[4..] == Encoded(w[3..]);
      }
      var rest := e[4..];
      assert |w| < 3 ==> rest == [];
      hide Encoded;
      assert forall k | 0 <= k < 4 :: e[k] != 10 && e[k] != 13;
      FourKept(e);
    }
  }

  lemma FourKept(e: Text)
    requires |e| >= 4 && (forall k | 0 <= k < 4 :: e[k] != 10 && e[k] != 13) && Stripped(e[4..]) == e[4..]
    ensures Stripped(e) == e
  {
    KeptOne(e[3..]);
    KeptOne(e[2..]);
    KeptOne(e[1..]);
    KeptOne(e);
  }

  lemma KeptOne(e: Text)
    requires e != [] && e[0] != 10 && e[0] != 13 && Stripped(e[1..]) == e[1..]
    ensures Stripped(e) == e
  {
  }

  // ----- what is decoded, and what is not -----

  /** The alphabet of section 4: A-Z, a-z, 0-9, + and /. */
  lemma Alphabet(c: Byte)
    ensures 'A' as int <= c <= 'Z' as int ==> Value(c) == c - 'A' as int
    ensures 'a' as int <= c <= 'z' as int ==> Value(c) == 26 + c - 'a' as int
    ensures '0' as int <= c <= '9' as int ==> Value(c) == 52 + c - '0' as int
    ensures Value('+' as int) == 62 && Value('/' as int) == 63
    ensures Value(c) >= 0 ==> 'A' as int <= c <= 'Z' as int || 'a' as int <= c <= 'z' as int || '0' as int <= c <= '9' as int || c in [43, 47]
  {
  }

  /** The digits of t are those of d, whatever the bits that are left over in the last one. */
  ghost predicate Says(t: Text, d: Text)
    decreases d
  {
    if d == [] then t == []
    else
      && |t| >= 4 && Value(t[0]) == d[0] / 4
      && (if |d| == 1 then Value(t[1]) >= 0 && Value(t[1]) / 16 == d[0] % 4 && |t| == 4 && t[2] == t[3] == PAD
          else
            && Value(t[1]) == d[0] % 4 * 16 + d[1] / 16
            && (if |d| == 2 then Value(t[2]) >= 0 && Value(t[2]) / 4 == d[1] % 16 && |t| == 4 && t[3] == PAD
                else
                  && Value(t[2]) == d[1] % 16 * 4 + d[2] / 64
                  && Value(t[3]) == d[2] % 64 && Says(t[4..], d[3..])))
  }

  lemma FirstIff(a: int, b: int, x: Byte)
    requires 0 <= a < 64 && 0 <= b < 64
    ensures First(a, b) == x <==> a == x / 4 && b / 16 == x % 4
  {
  }

  lemma SecondIff(b: int, c: int, x: Byte, y: Byte)
    requires 0 <= b < 64 && 0 <= c < 64 && b / 16 == x % 4
    ensures Second(b, c) == y <==> b == x % 4 * 16 + y / 16 && c / 4 == y % 16
  {
  }

  lemma ThirdIff(c: int, e: int, y: Byte, z: Byte)
    requires 0 <= c < 64 && 0 <= e < 64 && c / 4 == y % 16
    ensures Third(c, e) == z <==> c == y % 16 * 4 + z / 64 && e == z % 64
  {
  }

  lemma PadIsNone()
    ensures Value(PAD) == -1
  {
  }

  /** Decoding gives d exactly for the encodings of d, and fails for what encodes nothing. */
  lemma {:induction false} QuantaIff(t: Text, d: Text)
    ensures Quanta(t) == Some(d) <==> Says(t, d)
    decreases |t|
  {
    hide Value, First, Second, Third;
    PadIsNone();
    if |t| >= 4 && Value(t[0]) >= 0 && Value(t[1]) >= 0 {
      var a, b, c, e := Value(t[0]), Value(t[1]), Value(t[2]), Value(t[3]);
      if t[2] == PAD {
        OnePadded(t, d);
      } else if c >= 0 && t[3] == PAD {
        TwoPadded(t, d);
      } else if c >= 0 && e >= 0 {
        if |d| >= 3 {
          QuantaIff(t[4..], d[3..]);
          FirstIff(a, b, d[0]);
          if b / 16 == d[0] % 4 {
            SecondIff(b, c, d[0], d[1]);
            if c / 4 == d[1] % 16 { ThirdIff(c, e, d[1], d[2]); }
          }
          assert d == [d[0], d[1], d[2]] + d[3..];
        } else {
          NotPadded(t, d);
        }
      }
    }
  }

  lemma OnePadded(t: Text, d: Text)
    requires |t| >= 4 && Value(t[0]) >= 0 && Value(t[1]) >= 0 && t[2] == PAD
    ensures Quanta(t) == Some(d) <==> Says(t, d)
  {
    hide Value, First, Second, Third;
    PadIsNone();
    if d != [] { FirstIff(Value(t[0]), Value(t[1]), d[0]); }
    assert |d| == 1 ==> d == [d[0]];
  }

  lemma TwoPadded(t: Text, d: Text)
    requires |t| >= 4 && Value(t[0]) >= 0 && Value(t[1]) >= 0 && Value(t[2]) >= 0 && t[3] == PAD
    ensures Quanta(t) == Some(d) <==> Says(t, d)
  {
    hide Value, First, Second, Third;
    PadIsNone();
    var a, b, c := Value(t[0]), Value(t[1]), Value(t[2]);
    if |d| == 2 {
      FirstIff(a, b, d[0]);
      if b / 16 == d[0] % 4 { SecondIff(b, c, d[0], d[1]); }
      assert d == [d[0], d[1]];
    }
  }

  lemma NotPadded(t: Text, d: Text)
    requires |t| >= 4 && Value(t[0]) >= 0 && Value(t[1]) >= 0 && Value(t[2]) >= 0 && Value(t[3]) >= 0 && |d| < 3
    ensures Quanta(t) != Some(d) && !Says(t, d)
  {
    hide Value, First, Second, Third;
    PadIsNone();
  }

  /** Line breaks make no difference, wherever they stand, and nothing else is left out. */
  lemma {:induction false} StrippedIs(a: Text, c: Byte, b: Text)
    ensures Stripped([]) == []
    ensures Stripped(a + [c] + b) == if c == 10 || c == 13 then Stripped(a + b) else Stripped(a) + [c] + Stripped(b)
    decreases a
  {
    if a == [] {
      assert a + [c] + b == [c] + b && a + b == b;
    } else {
      assert (a + [c] + b)[1..] == a[1..] + [c] + b && (a + b)[1..] == a[1..] + b;
      StrippedIs(a[1..], c, b);
    }
  }
}
