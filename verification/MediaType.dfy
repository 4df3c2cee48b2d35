/** Media types of package mime: FormatMediaType, ParseMediaType, and why the second
    undoes the first. Strings are byte sequences, as in Go. */
module MediaType {
  import opened Common
  import opened Order

  type Text = seq<Byte>

  // ----- characters -----

  const SPACE: Byte := 32
  const QUOTE: Byte := 34       // "
  const PERCENT: Byte := 37     // %
  const APOSTROPHE: Byte := 39  // '
  const STAR: Byte := 42        // *
  const SLASH: Byte := 47       // /
  const SEMICOLON: Byte := 59   // ;
  const EQUALS: Byte := 61      // =
  const BACKSLASH: Byte := 92   // \

  /** grammar.go line 13: one of ()<>@,;:\"/[]?= */
  predicate IsTSpecial(c: Byte) {
    c == 40 || c == 41 || c == 60 || c == 62 || c == 64 || c == 44 || c == 59 || c == 58 || c == 92
    || c == 34 || c == 47 || c == 91 || c == 93 || c == 63 || c == 61
  }

  /** grammar.go line 19: token characters. A byte of 128 or more belongs to a rune
      that is none. */
  predicate IsTokenChar(c: Byte) { 0x20 < c < 0x7f && !IsTSpecial(c) }

  /** grammar.go line 27 */
  predicate IsToken(s: Text) { s != [] && AllToken(s) }

  predicate AllToken(s: Text) { forall k | 0 <= k < |s| :: IsTokenChar(s[k]) }

  predicate IsAscii(s: Text) { forall k | 0 <= k < |s| :: s[k] < 0x80 }

  function LowerByte(c: Byte): Byte { if 65 <= c <= 90 then c + 32 else c }

  function LowerAscii(s: Text): (r: Text)
    ensures |r| == |s| && forall k | 0 <= k < |s| :: r[k] == LowerByte(s[k])
  {
    if s == [] then [] else [LowerByte(s[0])] + LowerAscii(s[1..])
  }

  /** The ASCII characters unicode.IsSpace accepts. */
  predicate IsSpaceByte(c: Byte) { 9 <= c <= 13 || c == 32 }

  /** What the unicode tables say of text that is not ASCII: its lower-case form, and
      how many bytes the space character at its front or at its end has (0 if there is
      none). Nothing is assumed about them. */
  datatype Unicode = Unicode(lower: Text -> Text, spaceFront: Text -> nat, spaceBack: Text -> nat)

  /** strings.ToLower */
  function ToLower(u: Unicode, s: Text): Text { if IsAscii(s) then LowerAscii(s) else u.lower(s) }

  /** strings.TrimLeftFunc(s, unicode.IsSpace) */
  function TrimLeft(u: Unicode, s: Text): (r: Text)
    ensures |r| <= |s|
    decreases |s|
  {
    if s == [] then s
    else if s[0] < 0x80 then (if IsSpaceByte(s[0]) then TrimLeft(u, s[1..]) else s)
    else if 0 < u.spaceFront(s) <= |s| then TrimLeft(u, s[u.spaceFront(s)..])
    else s
  }

  function TrimRight(u: Unicode, s: Text): Text
    decreases |s|
  {
    if s == [] then s
    else if s[|s| - 1] < 0x80 then (if IsSpaceByte(s[|s| - 1]) then TrimRight(u, s[..|s| - 1]) else s)
    else if 0 < u.spaceBack(s) <= |s| then TrimRight(u, s[..|s| - u.spaceBack(s)])
    else s
  }

  /** strings.TrimSpace */
  function TrimSpace(u: Unicode, s: Text): Text { TrimRight(u, TrimLeft(u, s)) }

  // ----- tokens -----

  /** Length of the token at the front of v. */
  function TokenLen(v: Text): (n: nat)
    ensures n <= |v|
  {
    if v == [] || !IsTokenChar(v[0]) then 0 else 1 + TokenLen(v[1..])
  }

  /** Line 271: consumeToken */
  function ConsumeToken(v: Text): (Text, Text) { (v[..TokenLen(v)], v[TokenLen(v)..]) }

  /** The next character, if any, ends a token. */
  predicate EndsToken(tail: Text) { tail == [] || !IsTokenChar(tail[0]) }

  lemma {:induction false} TokenLenOf(t: Text, tail: Text)
    requires EndsToken(tail) && AllToken(t)
    ensures TokenLen(t + tail) == |t|
    ensures ConsumeToken(t + tail) == (t, tail)
    decreases t
  {
    if t == [] {
      assert t + tail == tail;
    } else {
      assert (t + tail)[1..] == t[1..] + tail;
      TokenLenOf(t[1..], tail);
    }
    assert (t + tail)[..|t|] == t && (t + tail)[|t|..] == tail;
  }

  // ----- quoted strings -----

  /** The inside of a quoted string: a backslash before every quote and backslash. */
  function QuoteBody(s: Text): Text {
    if s == [] then []
    else (if s[0] == QUOTE || s[0] == BACKSLASH then [BACKSLASH, s[0]] else [s[0]]) + QuoteBody(s[1..])
  }

  /** Line 297: what the loop of consumeValue does from position i on: the unescaped
      value and the position after the closing quote. */
  function QuotedFrom(v: Text, i: nat): Option<(Text, nat)>
    decreases |v| - i
  {
    if i >= |v| then None
    else if v[i] == QUOTE then Some(([], i + 1))
    else if v[i] == BACKSLASH && i + 1 < |v| && IsTSpecial(v[i + 1]) then Prepend(v[i + 1], QuotedFrom(v, i + 2))
    else if v[i] == 13 || v[i] == 10 then None
    else Prepend(v[i], QuotedFrom(v, i + 1))
  }

  function Prepend(c: Byte, r: Option<(Text, nat)>): Option<(Text, nat)> {
    if r.None? then None else Some(([c] + r.value.0, r.value.1))
  }

  lemma QuotedFromBound(v: Text, i: nat)
    ensures QuotedFrom(v, i).Some? ==> i < QuotedFrom(v, i).value.1 <= |v|
    decreases |v| - i
  {
  }

  /** Line 287: what consumeValue returns. */
  function ConsumedValue(v: Text): (Text, Text) {
    if v == [] then ([], [])
    else if v[0] != QUOTE then ConsumeToken(v)
    else
      QuotedFromBound(v, 1);
      match QuotedFrom(v, 1)
      case None => ([], v)
      case Some(r) => (r.0, v[r.1..])
  }

  function PrependAll(front: Text, r: Option<(Text, nat)>): Option<(Text, nat)> {
    if r.None? then None else Some((front + r.value.0, r.value.1))
  }

  lemma PrependTwice(front: Text, c: Byte, r: Option<(Text, nat)>)
    ensures PrependAll(front, Prepend(c, r)) == PrependAll(front + [c], r)
  {
    if r.Some? { Assoc(front, [c], r.value.0); }
  }

  /** Line 287: consumeValue */
  method ConsumeValue(v: Text) returns (value: Text, rest: Text)
    ensures (value, rest) == ConsumedValue(v)
  {
    if v == [] {
      return [], [];
    }
    if v[0] != QUOTE {
      var t := ConsumeToken(v);
      return t.0, t.1;
    }
    var buffer: Text := [];
    var i := 1;
    assert PrependAll(buffer, QuotedFrom(v, 1)) == QuotedFrom(v, 1) by {
      if QuotedFrom(v, 1).Some? { assert [] + QuotedFrom(v, 1).value.0 == QuotedFrom(v, 1).value.0; }
    }
    while i < |v|
      invariant 1 <= i <= |v|
      invariant QuotedFrom(v, 1) == PrependAll(buffer, QuotedFrom(v, i))
    {
      hide IsTSpecial;
      var r := v[i];
      if r == QUOTE {
        assert buffer + [] == buffer;
        return buffer, v[i + 1..];
      }
      if r == BACKSLASH && i + 1 < |v| && IsTSpecial(v[i + 1]) {
        PrependTwice(buffer, v[i + 1], QuotedFrom(v, i + 2));
        buffer := buffer + [v[i + 1]];
        i := i + 2;
        continue;
      }
      if r == 13 || r == 10 {
        return [], v;
      }
      PrependTwice(buffer, r, QuotedFrom(v, i + 1));
      buffer := buffer + [r];
      i := i + 1;
    }
    return [], v;
  }

  /** No line break inside. */
  predicate OneLine(s: Text) { forall k | 0 <= k < |s| :: s[k] != 13 && s[k] != 10 }

  /** Unescaping a quoted string gives back what was quoted. */
  lemma {:induction false} QuotedOfBody(pre: Text, s: Text, tail: Text)
    requires OneLine(s)
    ensures QuotedFrom(pre + QuoteBody(s) + [QUOTE] + tail, |pre|) == Some((s, |pre| + |QuoteBody(s)| + 1))
    decreases s
  {
    var v := pre + QuoteBody(s) + [QUOTE] + tail;
    if s == [] {
      assert v[|pre|] == QUOTE;
    } else {
      var head := if s[0] == QUOTE || s[0] == BACKSLASH then [BACKSLASH, s[0]] else [s[0]];
      assert v == (pre + head) + QuoteBody(s[1..]) + [QUOTE] + tail;
      QuotedOfBody(pre + head, s[1..], tail);
      assert v[|pre|] == head[0] && (|head| == 2 ==> v[|pre| + 1] == s[0]);
      assert s == [s[0]] + s[1..];
    }
  }

  // ----- percent encoding -----

  /** encodedword.go line 42: needsEncoding. A byte of 128 or more makes a rune above
      '~' whether or not it is valid UTF-8. */
  predicate NeedsEncoding(s: Text) {
    exists k :: 0 <= k < |s| && (s[k] < 32 || s[k] > 126) && s[k] != 9
  }

  /** Lines 67-69 */
  predicate NeedsPercent(c: Byte) {
    c <= SPACE || c >= 0x7F || c == STAR || c == APOSTROPHE || c == PERCENT || IsTSpecial(c)
  }

  function UpperHex(d: int): Byte
    requires 0 <= d < 16
  {
    if d < 10 then 48 + d else 55 + d
  }

  function EncodeByte(c: Byte): Text {
    if NeedsPercent(c) then [PERCENT, UpperHex(c / 16), UpperHex(c % 16)] else [c]
  }

  function PercentEncoded(s: Text): Text {
    if s == [] then [] else EncodeByte(s[0]) + PercentEncoded(s[1..])
  }

  /** Line 393: ishex */
  predicate IsHex(c: Byte) { 48 <= c <= 57 || 97 <= c <= 102 || 65 <= c <= 70 }

  /** Line 405: unhex */
  function Unhex(c: Byte): (d: int)
    ensures 0 <= d < 16
  {
    if 48 <= c <= 57 then c - 48
    else if 97 <= c <= 102 then c - 97 + 10
    else if 65 <= c <= 70 then c - 65 + 10
    else 0
  }

  /** Line 354: what percentHexUnescape returns, None for its error. */
  function Unescaped(s: Text): Option<Text> {
    if s == [] then Some([])
    else if s[0] != PERCENT then PrependTo([s[0]], Unescaped(s[1..]))
    else if |s| < 3 || !IsHex(s[1]) || !IsHex(s[2]) then None
    else PrependTo([Unhex(s[1]) * 16 + Unhex(s[2])], Unescaped(s[3..]))
  }

  function PrependTo(front: Text, r: Option<Text>): Option<Text> {
    if r.None? then None else Some(front + r.value)
  }

  /** Line 354: percentHexUnescape. The first loop checks and counts, so that the second
      fills an array of just the right size. */
  method PercentHexUnescape(s: Text) returns (r: Option<Text>)
    ensures r == Unescaped(s)
  {
    var percents := 0;
    var i := 0;
    assert s[0..] == s;
    NothingPrepended(Unescaped(s));
    while i < |s|
      invariant 0 <= i <= |s| && 0 <= percents
      invariant Unescaped(s).Some? <==> Unescaped(s[i..]).Some?
      invariant Unescaped(s).Some? ==> |Unescaped(s).value| == |Unescaped(s[i..]).value| + i - 2 * percents
      invariant percents == 0 ==> Unescaped(s) == PrependTo(s[..i], Unescaped(s[i..]))
    {
      hide IsHex, Unhex, Unescaped;
      UnescapedStep(s, i);
      if s[i] != PERCENT {
        PrependToTwice(s[..i], [s[i]], Unescaped(s[i + 1..]));
        assert s[..i + 1] == s[..i] + [s[i]];
        i := i + 1;
        continue;
      }
      percents := percents + 1;
      if i + 2 >= |s| || !IsHex(s[i + 1]) || !IsHex(s[i + 2]) {
        return None;
      }
      i := i + 3;
    }
    if percents == 0 {
      assert s[..i] == s && s + [] == s;
      return Some(s);
    }
    var t := new Byte[|s| - 2 * percents];
    var j := 0;
    i := 0;
    while i < |s|
      invariant 0 <= i <= |s| && 0 <= j <= t.Length && Unescaped(s[i..]).Some?
      invariant t[..j] + Unescaped(s[i..]).value == Unescaped(s).value
    {
      hide IsHex, Unhex, Unescaped;
      UnescapedStep(s, i);
      ghost var tail, next := Unescaped(s[i..]).value, if s[i] == PERCENT then i + 3 else i + 1;
      assert |tail| == 1 + |Unescaped(s[next..]).value|;
      assert j + |tail| == t.Length;
      ghost var front := t[..j];
      if s[i] == PERCENT {
        t[j] := Unhex(s[i + 1]) * 16 + Unhex(s[i + 2]);
        i := i + 3;
      } else {
        t[j] := s[i];
        i := i + 1;
      }
      j := j + 1;
      assert t[..j] == front + [t[j - 1]];
      Assoc(front, [t[j - 1]], Unescaped(s[i..]).value);
    }
    assert t[..j] + [] == t[..j] == t[..];
    return Some(t[..]);
  }

  lemma NothingPrepended(r: Option<Text>)
    ensures PrependTo([], r) == r
  {
    if r.Some? { assert [] + r.value == r.value; }
  }

  lemma PrependToTwice(a: Text, b: Text, r: Option<Text>)
    ensures PrependTo(a, PrependTo(b, r)) == PrependTo(a + b, r)
  {
    if r.Some? { Assoc(a, b, r.value); }
  }

  /** One step of the unescaping, at position i. */
  lemma UnescapedStep(s: Text, i: nat)
    requires i < |s|
    ensures Unescaped(s[i..]) ==
      if s[i] != PERCENT then PrependTo([s[i]], Unescaped(s[i + 1..]))
      else if i + 2 >= |s| || !IsHex(s[i + 1]) || !IsHex(s[i + 2]) then None
      else PrependTo([Unhex(s[i + 1]) * 16 + Unhex(s[i + 2])], Unescaped(s[i + 3..]))
  {
    hide IsHex, Unhex;
    var w := s[i..];
    assert w[1..] == s[i + 1..];
    if i + 2 < |s| { assert w[3..] == s[i + 3..]; }
  }

  /** Decoding undoes encoding, for every byte string. */
  lemma {:induction false} UnescapedOfEncoded(s: Text)
    ensures Unescaped(PercentEncoded(s)) == Some(s)
    decreases s
  {
    if s != [] {
      var c, e := s[0], PercentEncoded(s);
      UnescapedOfEncoded(s[1..]);
      assert s == [c] + s[1..];
      if NeedsPercent(c) {
        HexRoundTrip(c);
        assert e[3..] == PercentEncoded(s[1..]);
        assert e[0] == PERCENT && e[1] == UpperHex(c / 16) && e[2] == UpperHex(c % 16);
      } else {
        assert e[1..] == PercentEncoded(s[1..]);
      }
    }
  }

  lemma HexRoundTrip(c: Byte)
    ensures IsHex(UpperHex(c / 16)) && IsHex(UpperHex(c % 16))
    ensures Unhex(UpperHex(c / 16)) * 16 + Unhex(UpperHex(c % 16)) == c
  {
  }

  /** The encoded form is made of token characters and has no apostrophe. */
  lemma {:induction false} EncodedIsToken(s: Text)
    ensures AllToken(PercentEncoded(s)) && APOSTROPHE !in PercentEncoded(s)
    decreases s
  {
    if s != [] {
      EncodedByteIsToken(s[0]);
      EncodedIsToken(s[1..]);
      AllTokenConcat(EncodeByte(s[0]), PercentEncoded(s[1..]));
      hide EncodeByte;
    }
  }

  lemma EncodedByteIsToken(c: Byte)
    ensures AllToken(EncodeByte(c)) && APOSTROPHE !in EncodeByte(c)
  {
  }

  lemma AllTokenConcat(a: Text, b: Text)
    requires AllToken(a) && AllToken(b)
    ensures AllToken(a + b)
  {
    hide IsTokenChar;
  }

  // ----- one parameter -----

  const CHARSET: Text := [117, 116, 102, 45, 56]  // utf-8
  const US_ASCII: Text := [117, 115, 45, 97, 115, 99, 105, 105]
  const UTF8_PREFIX: Text := [117, 116, 102, 45, 56, APOSTROPHE, APOSTROPHE]

  /** Lines 52-99: how a value is written. */
  function ValueText(value: Text): Text {
    if NeedsEncoding(value) then UTF8_PREFIX + PercentEncoded(value)
    else if IsToken(value) then value
    else [QUOTE] + QuoteBody(value) + [QUOTE]
  }

  /** Lines 45-57: a parameter up to its value. */
  function NameText(name: Text, value: Text): Text {
    [SEMICOLON, SPACE] + LowerAscii(name) + (if NeedsEncoding(value) then [STAR] else []) + [EQUALS]
  }

  /** Line 326: consumeMediaParam */
  function ConsumeMediaParam(u: Unicode, v: Text): (Text, Text, Text) {
    var r0 := TrimLeft(u, v);
    if r0 == [] || r0[0] != SEMICOLON then ([], [], v)
    else
      var t := ConsumeToken(TrimLeft(u, r0[1..]));
      var param := ToLower(u, t.0);
      if param == [] then ([], [], v)
      else
        var r1 := TrimLeft(u, t.1);
        if r1 == [] || r1[0] != EQUALS then ([], [], v)
        else
          var r2 := TrimLeft(u, r1[1..]);
          var x := ConsumedValue(r2);
          if x.0 == [] && x.1 == r2 then ([], [], v) else (param, x.0, x.1)
  }

  lemma ConsumeValueShrinks(v: Text)
    ensures |ConsumedValue(v).1| <= |v|
  {
    QuotedFromBound(v, 1);
  }

  /** A parameter that is consumed takes at least its semicolon away. */
  lemma ConsumeShrinks(u: Unicode, v: Text)
    ensures ConsumeMediaParam(u, v).0 != [] ==> |ConsumeMediaParam(u, v).2| < |v|
  {
    var r0 := TrimLeft(u, v);
    if r0 != [] && r0[0] == SEMICOLON {
      var t := ConsumeToken(TrimLeft(u, r0[1..]));
      var r1 := TrimLeft(u, t.1);
      if r1 != [] { ConsumeValueShrinks(TrimLeft(u, r1[1..])); }
    }
  }

  /** Text that does not start with a space, nor with a byte beyond ASCII, is not
      trimmed. */
  lemma NoTrim(u: Unicode, s: Text)
    requires s == [] || (s[0] < 0x80 && !IsSpaceByte(s[0]))
    ensures TrimLeft(u, s) == s
  {
  }

  predicate EndsParam(tail: Text) { tail == [] || tail[0] == SEMICOLON }

  /** Whatever form a value was written in, it is read back up to the next parameter:
      decoded if it was quoted, still percent-encoded if it was encoded. */
  lemma ValueReadBack(u: Unicode, value: Text, tail: Text)
    requires EndsParam(tail)
    ensures var read := if NeedsEncoding(value) then ValueText(value) else value;
      && ConsumedValue(ValueText(value) + tail) == (read, tail)
      && TrimLeft(u, ValueText(value) + tail) == ValueText(value) + tail
      && ValueText(value) != []
  {
    var w := ValueText(value);
    if NeedsEncoding(value) {
      EncodedIsToken(value);
      assert AllToken(UTF8_PREFIX);
      AllTokenConcat(UTF8_PREFIX, PercentEncoded(value));
      TokenLenOf(w, tail);
    } else if IsToken(value) {
      TokenLenOf(w, tail);
    } else {
      QuotedValue(value, tail);
    }
    NoTrim(u, w + tail);
  }

  lemma QuotedValue(value: Text, tail: Text)
    requires !NeedsEncoding(value)
    ensures ConsumedValue([QUOTE] + QuoteBody(value) + [QUOTE] + tail) == (value, tail)
  {
    var v := [QUOTE] + QuoteBody(value) + [QUOTE] + tail;
    PlainIsOneLine(value);
    QuotedOfBody([QUOTE], value, tail);
    assert v[|QuoteBody(value)| + 2..] == tail;
  }

  lemma PlainIsOneLine(value: Text)
    requires !NeedsEncoding(value)
    ensures OneLine(value)
  {
    forall k | 0 <= k < |value|
      ensures value[k] != 13 && value[k] != 10
    {
      assert 32 <= value[k] || value[k] == 9 || NeedsEncoding(value);
    }
  }

  /** A parameter name as the round trip needs it. */
  predicate PlainName(name: Text) { IsToken(name) && LowerAscii(name) == name && STAR !in name }

  /** The name under which a value is read: with a star if it was encoded. */
  function ReadName(name: Text, value: Text): Text { if NeedsEncoding(value) then name + [STAR] else name }

  function ReadValue(value: Text): Text { if NeedsEncoding(value) then ValueText(value) else value }

  /** A written parameter is consumed whole. */
  lemma ParamReadBack(u: Unicode, name: Text, value: Text, tail: Text)
    requires PlainName(name) && EndsParam(tail)
    ensures ConsumeMediaParam(u, NameText(name, value) + ValueText(value) + tail) == (ReadName(name, value), ReadValue(value), tail)
  {
    hide ConsumedValue, ValueText, ConsumeToken, NeedsEncoding, TrimLeft, IsToken;
    var n := ReadName(name, value);
    var w := ValueText(value) + tail;
    var v := NameText(name, value) + ValueText(value) + tail;
    assert v == [SEMICOLON, SPACE] + (n + ([EQUALS] + w));
    NoTrim(u, v);
    NameIsToken(name, value);
    assert (n + ([EQUALS] + w))[0] == n[0] && IsTokenChar(n[0]);
    SpaceTrimmed(u, n + ([EQUALS] + w), name);
    assert v[1..] == [SPACE] + (n + ([EQUALS] + w));
    TokenLenOf(n, [EQUALS] + w);
    NoTrim(u, [EQUALS] + w);
    LowerName(u, name, value);
    assert ([EQUALS] + w)[1..] == w;
    ValueReadBack(u, value, tail);
    ValueNonempty(value, tail);
  }

  lemma ValueNonempty(value: Text, tail: Text)
    ensures ReadValue(value) != [] || tail != ValueText(value) + tail
  {
    assert |ValueText(value) + tail| == |ValueText(value)| + |tail|;
  }

  lemma NameIsToken(name: Text, value: Text)
    requires IsToken(name)
    ensures ReadName(name, value) != []
    ensures AllToken(ReadName(name, value))
  {
  }

  lemma LowerName(u: Unicode, name: Text, value: Text)
    requires PlainName(name)
    ensures ToLower(u, ReadName(name, value)) == ReadName(name, value)
  {
    hide NeedsEncoding;
    var n := ReadName(name, value);
    assert forall k | 0 <= k < |name| :: LowerByte(name[k]) == LowerAscii(name)[k] == name[k];
    assert LowerAscii(n) == n;
  }

  lemma SpaceTrimmed(u: Unicode, s: Text, name: Text)
    requires s != [] && s[0] < 0x80 && !IsSpaceByte(s[0])
    ensures TrimLeft(u, [SPACE] + s) == s
  {
    assert ([SPACE] + s)[1..] == s;
  }

  // ----- FormatMediaType -----

  predicate IsPair(t: Text, major: Text, sub: Text) { IsToken(major) && IsToken(sub) && t == major + [SLASH] + sub }

  /** A media type (section 5.1 of RFC 2045) or a disposition: two tokens with a slash between
      them, or just one. */
  ghost predicate ValidType(t: Text) { IsToken(t) || exists major, sub :: IsPair(t, major, sub) }

  /** Lines 22-35: the type in lower case, None if it is not valid. */
  function TypeText(t: Text): Option<Text> {
    var slash := IndexByte(t, SLASH);
    if slash < 0 then (if IsToken(t) then Some(LowerAscii(t)) else None)
    else
      var major, sub := t[..slash], t[slash + 1..];
      if IsToken(major) && IsToken(sub) then Some(LowerAscii(major) + [SLASH] + LowerAscii(sub)) else None
  }

  lemma TypeTextValid(t: Text)
    ensures TypeText(t).Some? <==> ValidType(t)
    ensures TypeText(t).Some? ==> TypeText(t).value != []
  {
    hide LowerAscii;
    var slash := IndexByte(t, SLASH);
    IndexByteSpec(t, SLASH);
    if slash >= 0 {
      var major, sub := t[..slash], t[slash + 1..];
      assert t == major + [SLASH] + sub && t[slash] == SLASH;
      if IsToken(major) && IsToken(sub) { assert IsPair(t, major, sub); }
    }
    if major, sub :| IsPair(t, major, sub) {
      assert t[..|major|] == major && t[|major| + 1..] == sub;
      IndexByteUnique(t, SLASH, |major|);
    }
  }

  /** Lines 43-100: the parameters in the given order, None if a name is not valid. */
  function ParamsText(attrs: seq<Text>, params: map<Text, Text>): Option<Text>
    requires forall a | a in attrs :: a in params
  {
    if attrs == [] then Some([])
    else if !IsToken(attrs[0]) then None
    else
      PrependTo(NameText(attrs[0], params[attrs[0]]) + ValueText(params[attrs[0]]), ParamsText(attrs[1..], params))
  }

  /** The whole text, empty if something is not valid. */
  function Formatted(t: Text, attrs: seq<Text>, params: map<Text, Text>): Text
    requires forall a | a in attrs :: a in params
  {
    match TypeText(t)
    case None => []
    case Some(head) =>
      match ParamsText(attrs, params)
      case None => []
      case Some(tail) => head + tail
  }

  // ----- the order of the parameters -----

  /** The names in ascending order: by Order.AscendingUnique there is just one such list. */
  ghost predicate Enumerates(attrs: seq<Text>, params: map<Text, Text>) {
    Ascending(attrs) && forall a :: a in attrs <==> a in params
  }

  /** Lines 37-41: the names in ascending order, whatever order the map yields. */
  method SortedKeys(params: map<Text, Text>) returns (attrs: seq<Text>)
    ensures Enumerates(attrs, params)
  {
    attrs := [];
    var left := params.Keys;
    while left != {}
      invariant left <= params.Keys && Ascending(attrs)
      invariant forall a :: a in attrs <==> a in params && a !in left
      decreases left
    {
      var a :| a in left;
      InsertedAscending(a, attrs);
      attrs := Inserted(a, attrs);
      left := left - {a};
    }
  }

  // ----- the loops of FormatMediaType -----

  lemma {:induction false} EncodedConcat(a: Text, b: Text)
    ensures PercentEncoded(a + b) == PercentEncoded(a) + PercentEncoded(b)
    decreases a
  {
    if a == [] {
      assert a + b == b;
    } else {
      assert (a + b)[1..] == a[1..] + b;
      EncodedConcat(a[1..], b);
    }
  }

  lemma EncodedSnoc(s: Text, i: nat)
    requires i < |s|
    ensures PercentEncoded(s[..i + 1]) == PercentEncoded(s[..i]) + EncodeByte(s[i])
  {
    assert s[..i + 1] == s[..i] + [s[i]];
    EncodedConcat(s[..i], [s[i]]);
  }

  lemma {:induction false} QuotedConcat(a: Text, b: Text)
    ensures QuoteBody(a + b) == QuoteBody(a) + QuoteBody(b)
    decreases a
  {
    if a == [] {
      assert a + b == b;
    } else {
      assert (a + b)[1..] == a[1..] + b;
      QuotedConcat(a[1..], b);
    }
  }

  /** Lines 62-79: unescaped stretches are copied whole. */
  method WriteEncoded(b0: Text, value: Text) returns (b: Text)
    ensures b == b0 + PercentEncoded(value)
  {
    b := b0;
    var offset := 0;
    assert b + value[0..0] == b0 + PercentEncoded(value[..0]);
    for index := 0 to |value|
      invariant 0 <= offset <= index
      invariant b + value[offset..index] == b0 + PercentEncoded(value[..index])
    {
      hide PercentEncoded, EncodeByte;
      var ch := value[index];
      EncodedSnoc(value, index);
      EncodeByteValue(ch);
      Assoc(b0, PercentEncoded(value[..index]), EncodeByte(ch));
      if ch <= SPACE || ch >= 0x7F || ch == STAR || ch == APOSTROPHE || ch == PERCENT || IsTSpecial(ch) {
        ghost var done := b + value[offset..index];
        b := b + value[offset..index];
        offset := index + 1;
        b := b + [PERCENT];
        b := b + [UpperHex(ch / 16)];
        b := b + [UpperHex(ch % 16)];
        assert b + value[offset..index + 1] == b == done + EncodeByte(ch);
      } else {
        assert value[offset..index + 1] == value[offset..index] + [ch];
        Assoc(b, value[offset..index], [ch]);
      }
    }
    assert value[..|value|] == value && value[offset..] == value[offset..|value|];
    b := b + value[offset..];
  }

  lemma EncodeByteValue(c: Byte)
    ensures EncodeByte(c) == if NeedsPercent(c) then [PERCENT] + [UpperHex(c / 16)] + [UpperHex(c % 16)] else [c]
  {
  }

  lemma QuotedSnoc(s: Text, i: nat)
    requires i < |s|
    ensures QuoteBody(s[..i + 1])
      == QuoteBody(s[..i]) + (if s[i] == QUOTE || s[i] == BACKSLASH then [BACKSLASH] + [s[i]] else [s[i]])
  {
    assert s[..i + 1] == s[..i] + [s[i]];
    QuotedConcat(s[..i], [s[i]]);
  }

  /** Lines 88-99 */
  method WriteQuoted(b0: Text, value: Text) returns (b: Text)
    ensures b == b0 + ([QUOTE] + QuoteBody(value) + [QUOTE])
  {
    b := b0 + [QUOTE];
    var offset := 0;
    assert b + value[0..0] == b0 + [QUOTE] + QuoteBody(value[..0]);
    for index := 0 to |value|
      invariant 0 <= offset <= index
      invariant b + value[offset..index] == b0 + [QUOTE] + QuoteBody(value[..index])
    {
      hide QuoteBody;
      var character := value[index];
      ghost var done := b + value[offset..index];
      QuotedSnoc(value, index);
      assert value[offset..index + 1] == value[offset..index] + [character];
      Assoc(b, value[offset..index], [character]);
      if character == QUOTE || character == BACKSLASH {
        b := b + value[offset..index];
        offset := index;
        b := b + [BACKSLASH];
        assert value[offset..index + 1] == [character];
        Assoc(done, [BACKSLASH], [character]);
        Assoc(b0 + [QUOTE], QuoteBody(value[..index]), [BACKSLASH] + [character]);
      } else {
        Assoc(b0 + [QUOTE], QuoteBody(value[..index]), [character]);
      }
    }
    assert value[..|value|] == value && value[offset..] == value[offset..|value|];
    b := b + value[offset..];
    b := b + [QUOTE];
  }

  /** Lines 22-35, None for the early return. */
  method WriteType(t: Text) returns (b: Option<Text>)
    ensures b == TypeText(t)
  {
    var slash := IndexByte(t, SLASH);
    if slash == -1 {
      if !IsToken(t) {
        return None;
      }
      return Some(LowerAscii(t));
    }
    var major, sub := t[..slash], t[slash + 1..];
    if !IsToken(major) || !IsToken(sub) {
      return None;
    }
    var front := LowerAscii(major);
    front := front + [SLASH];
    front := front + LowerAscii(sub);
    return Some(front);
  }

  /** Line 20: FormatMediaType */
  method FormatMediaType(t: Text, params: map<Text, Text>) returns (r: Text)
    ensures exists attrs: seq<Text> :: Enumerates(attrs, params) && r == Formatted(t, attrs, params)
    ensures r == [] <==> !ValidType(t) || exists a | a in params :: !IsToken(a)
  {
    hide NameText, ValueText, ParamsText, TypeText, IsToken, ValidType;
    TypeTextValid(t);
    var head := WriteType(t);
    var keys := SortedKeys(params);
    if head.None? {
      assert Enumerates(keys, params) && [] == Formatted(t, keys, params);
      return [];
    }
    var b := head.value;
    NoParams(params);
    assert keys[..0] == [] && b == head.value + [];
    for i := 0 to |keys|
      invariant AllTokens(keys[..i])
      invariant ParamsText(keys[..i], params).Some?
      invariant b == head.value + ParamsText(keys[..i], params).value
    {
      var attribute := keys[i];
      var value := params[attribute];
      assert keys[..i + 1] == keys[..i] + [attribute];
      if !IsToken(attribute) {
        InvalidName(keys, params, i);
        assert Enumerates(keys, params) && [] == Formatted(t, keys, params);
        return [];
      }
      ParamsSnoc(keys[..i], attribute, params);
      Assoc(head.value, ParamsText(keys[..i], params).value, NameText(attribute, value) + ValueText(value));
      b := WriteParam(b, attribute, value);
    }
    assert keys[..|keys|] == keys;
    r := b;
    assert forall a | a in params :: exists k :: 0 <= k < |keys| && keys[k] == a;
    assert Enumerates(keys, params) && r == Formatted(t, keys, params);
  }

  lemma NoParams(params: map<Text, Text>)
    ensures ParamsText([], params) == Some([])
  {
  }

  predicate AllTokens(attrs: seq<Text>) { forall k | 0 <= k < |attrs| :: IsToken(attrs[k]) }

  /** Lines 45-99: one parameter. */
  method WriteParam(b0: Text, attribute: Text, value: Text) returns (b: Text)
    ensures b == b0 + (NameText(attribute, value) + ValueText(value))
  {
    hide NeedsEncoding, LowerAscii, PercentEncoded, QuoteBody, IsToken;
    b := b0 + [SEMICOLON];
    b := b + [SPACE];
    assert b == b0 + [SEMICOLON, SPACE];
    b := b + LowerAscii(attribute);
    var needEnc := NeedsEncoding(value);
    if needEnc {
      b := b + [STAR];
    }
    b := b + [EQUALS];
    assert b == b0 + NameText(attribute, value);
    Assoc(b0, NameText(attribute, value), ValueText(value));
    if needEnc {
      b := b + UTF8_PREFIX;
      Assoc(b0 + NameText(attribute, value), UTF8_PREFIX, PercentEncoded(value));
      b := WriteEncoded(b, value);
    } else if IsToken(value) {
      b := b + value;
    } else {
      b := WriteQuoted(b, value);
    }
  }

  lemma {:induction false} ParamsSnoc(attrs: seq<Text>, a: Text, params: map<Text, Text>)
    requires (forall x | x in attrs :: x in params) && a in params && AllTokens(attrs) && IsToken(a)
    ensures forall x | x in attrs + [a] :: x in params
    ensures ParamsText(attrs, params).Some?
    ensures ParamsText(attrs + [a], params)
      == Some(ParamsText(attrs, params).value + (NameText(a, params[a]) + ValueText(params[a])))
    decreases attrs
  {
    hide NameText, ValueText, IsToken;
    if attrs == [] {
      assert attrs + [a] == [a] && [a][1..] == [];
      NoParams(params);
      var w := NameText(a, params[a]) + ValueText(params[a]);
      assert w + [] == w == [] + w;
      assert ParamsText([a], params) == PrependTo(w, ParamsText([a][1..], params)) == Some(w + []);
    } else {
      assert (attrs + [a])[1..] == attrs[1..] + [a];
      assert attrs == [attrs[0]] + attrs[1..];
      ParamsSnoc(attrs[1..], a, params);
      var x := attrs[0];
      Assoc(NameText(x, params[x]) + ValueText(params[x]), ParamsText(attrs[1..], params).value,
            NameText(a, params[a]) + ValueText(params[a]));
    }
  }

  lemma {:induction false} InvalidName(attrs: seq<Text>, params: map<Text, Text>, i: nat)
    requires (forall x | x in attrs :: x in params) && i < |attrs| && !IsToken(attrs[i])
    ensures ParamsText(attrs, params) == None
    decreases i
  {
    hide NameText, ValueText, IsToken;
    if i > 0 && IsToken(attrs[0]) {
      InvalidName(attrs[1..], params, i - 1);
    }
  }

  /** The parameters stand in the given order, each with its semicolon and in lower case. */
  lemma {:induction false} ParamsInOrder(attrs: seq<Text>, params: map<Text, Text>)
    requires (forall a | a in attrs :: a in params) && AllTokens(attrs)
    ensures ParamsText(attrs, params)
      == Some(Flatten(seq(|attrs|, k requires 0 <= k < |attrs| => NameText(attrs[k], params[attrs[k]]) + ValueText(params[attrs[k]]))))
    decreases attrs
  {
    hide NameText, ValueText, IsToken;
    if attrs == [] {
      NoParams(params);
      assert ParamsText([], params) == Some(Flatten([]));
    } else {
      var rest := attrs[1..];
      assert attrs == [attrs[0]] + rest;
      ParamsInOrder(rest, params);
      var xs := seq(|attrs|, k requires 0 <= k < |attrs| => NameText(attrs[k], params[attrs[k]]) + ValueText(params[attrs[k]]));
      assert xs[1..] == seq(|rest|, k requires 0 <= k < |rest| => NameText(rest[k], params[rest[k]]) + ValueText(params[rest[k]]));
    }
  }
}
