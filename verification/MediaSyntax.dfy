/** What ParseMediaType makes of any text of the right form: parameters in either form of
    value, in any case, with white space anywhere, continued over several pieces, and the
    texts that are no parameters. */
module MediaSyntax {
  import opened Common
  import opened MediaType
  import opened MediaParse

  // ----- percent encoding -----

  const LOWER_DIGITS: Text := [48, 49, 50, 51, 52, 53, 54, 55, 56, 57, 97, 98, 99, 100, 101, 102]
  const UPPER_DIGITS: Text := [48, 49, 50, 51, 52, 53, 54, 55, 56, 57, 65, 66, 67, 68, 69, 70]

  /** c is the hexadecimal digit of n. */
  predicate IsDigit(c: Byte, n: nat) { n < 16 && (c == LOWER_DIGITS[n] || c == UPPER_DIGITS[n]) }

  /** e is d with some bytes written as "%" and two hexadecimal digits, and no other "%". */
  ghost predicate Codes(e: Text, d: Text)
    decreases d
  {
    if d == [] then e == []
    else
      || (e != [] && e[0] != PERCENT && e[0] == d[0] && Codes(e[1..], d[1..]))
      || (|e| >= 3 && e[0] == PERCENT && IsDigit(e[1], d[0] / 16) && IsDigit(e[2], d[0] % 16) && Codes(e[3..], d[1..]))
  }

  lemma DigitValue(c: Byte)
    ensures forall n: nat :: IsDigit(c, n) <==> IsHex(c) && Unhex(c) == n
  {
  }

  /** percentHexUnescape gives d exactly for the encodings of d, and fails for what encodes
      nothing. */
  lemma {:induction false} UnescapedIff(e: Text, d: Text)
    ensures Unescaped(e) == Some(d) <==> Codes(e, d)
    decreases |e|
  {
    hide IsHex, Unhex, IsDigit;
    if e != [] {
      if e[0] != PERCENT {
        if d != [] {
          UnescapedIff(e[1..], d[1..]);
          assert d == [d[0]] + d[1..];
        }
      } else if |e| >= 3 {
        DigitValue(e[1]);
        DigitValue(e[2]);
        if d != [] {
          UnescapedIff(e[3..], d[1..]);
          assert d == [d[0]] + d[1..];
          TwoDigits(e[1], e[2], d[0]);
        }
      }
    }
  }

  lemma TwoDigits(a: Byte, b: Byte, c: Byte)
    ensures Unhex(a) * 16 + Unhex(b) == c <==> Unhex(a) == c / 16 && Unhex(b) == c % 16
  {
  }

  predicate IsExtended(u: Unicode, v: Text, charset: Text, language: Text, e: Text) {
    && v == charset + [APOSTROPHE] + language + [APOSTROPHE] + e
    && APOSTROPHE !in charset && APOSTROPHE !in language
    && (ToLower(u, charset) == CHARSET || ToLower(u, charset) == US_ASCII)
  }

  /** decode2231Enc gives d exactly for charset'language'encoding of d, in a charset it knows. */
  lemma Decode2231Iff(u: Unicode, v: Text, d: Text)
    ensures Decode2231(u, v) == Some(d) <==> exists charset, language, e :: IsExtended(u, v, charset, language, e) && Codes(e, d)
  {
    hide Decode2231, IsExtended, Codes;
    if Decode2231(u, v) == Some(d) { var charset, language, e := ExtendedParts(u, v, d); }
    if charset, language, e :| IsExtended(u, v, charset, language, e) && Codes(e, d) {
      ExtendedValue(u, v, charset, language, e, d);
    }
  }

  lemma ExtendedParts(u: Unicode, v: Text, d: Text) returns (charset: Text, language: Text, e: Text)
    requires Decode2231(u, v) == Some(d)
    ensures IsExtended(u, v, charset, language, e) && Codes(e, d)
  {
    hide ToLower, Codes, Unescaped, IndexByte;
    var first := IndexByte(v, APOSTROPHE);
    CutAt(v, APOSTROPHE);
    var rest := v[first + 1..];
    var second := IndexByte(rest, APOSTROPHE);
    CutAt(rest, APOSTROPHE);
    charset, language, e := v[..first], rest[..second], rest[second + 1..];
    UnescapedIff(e, d);
    ThreeParts(charset, language, e);
  }

  lemma CutAt(s: Text, c: Byte)
    ensures var i := IndexByte(s, c); i >= 0 ==> s == s[..i] + [c] + s[i + 1..] && c !in s[..i]
  {
    IndexByteSpec(s, c);
  }

  lemma ThreeParts(a: Text, b: Text, c: Text)
    ensures a + [APOSTROPHE] + (b + [APOSTROPHE] + c) == a + [APOSTROPHE] + b + [APOSTROPHE] + c
  {
  }

  lemma ExtendedValue(u: Unicode, v: Text, charset: Text, language: Text, e: Text, d: Text)
    requires IsExtended(u, v, charset, language, e) && Codes(e, d)
    ensures Decode2231(u, v) == Some(d)
  {
    hide ToLower, Codes, Unescaped;
    var rest := language + [APOSTROPHE] + e;
    assert v == charset + [APOSTROPHE] + rest && v[..|charset|] == charset && v[|charset| + 1..] == rest;
    IndexByteUnique(v, APOSTROPHE, |charset|);
    assert rest[..|language|] == language && rest[|language| + 1..] == e;
    IndexByteUnique(rest, APOSTROPHE, |language|);
    UnescapedIff(e, d);
  }

  // ----- the type -----

  /** Line 104: the error tells what is wrong with the type. */
  lemma DispositionErrors(t: Text, sub: Text, rest: Text)
    requires EndsToken(rest)
    ensures CheckDisposition(rest) == Some(NoMediaType)
    ensures IsToken(t) && rest != [] && rest[0] != SLASH ==> CheckDisposition(t + rest) == Some(ExpectedSlash)
    ensures IsToken(t) ==> CheckDisposition(t + [SLASH] + rest) == Some(ExpectedToken)
    ensures IsToken(t) && IsToken(sub) && rest != [] ==> CheckDisposition(t + [SLASH] + sub + rest) == Some(UnexpectedContent)
  {
    hide IsTokenChar, CheckDisposition;
    CheckedEmpty(rest);
    if IsToken(t) {
      if rest != [] && rest[0] != SLASH { CheckedUnslashed(t, rest); }
      CheckedSlash(t, [], rest);
      assert t + [SLASH] + [] + rest == t + [SLASH] + rest;
      if IsToken(sub) { CheckedSlash(t, sub, rest); }
    }
  }

  lemma CheckedEmpty(rest: Text)
    requires EndsToken(rest)
    ensures CheckDisposition(rest) == Some(NoMediaType)
  {
    hide IsTokenChar;
    assert [] + rest == rest;
    TokenLenOf([], rest);
  }

  lemma CheckedUnslashed(t: Text, rest: Text)
    requires IsToken(t) && EndsToken(rest) && rest != [] && rest[0] != SLASH
    ensures CheckDisposition(t + rest) == Some(ExpectedSlash)
  {
    hide IsTokenChar;
    TokenLenOf(t, rest);
  }

  lemma CheckedSlash(t: Text, sub: Text, rest: Text)
    requires IsToken(t) && (sub == [] || IsToken(sub)) && EndsToken(rest)
    ensures sub == [] || rest != [] ==>
      CheckDisposition(t + [SLASH] + sub + rest) == Some(if sub == [] then ExpectedToken else UnexpectedContent)
  {
    hide IsTokenChar, ConsumeToken;
    assert !IsTokenChar(SLASH) by { SlashEnds(); }
    var tail := sub + rest;
    assert ([SLASH] + tail)[0] == SLASH && ([SLASH] + tail)[1..] == tail;
    TokenLenOf(t, [SLASH] + tail);
    TokenLenOf(sub, rest);
    SlashText(t, sub, rest);
  }

  lemma SlashText(t: Text, sub: Text, rest: Text)
    ensures t + [SLASH] + sub + rest == t + ([SLASH] + (sub + rest))
  {
  }

  lemma SlashEnds()
    ensures !IsTokenChar(SLASH)
  {
  }

  /** There is no error exactly for a valid type. */
  lemma DispositionIff(s: Text)
    ensures CheckDisposition(s) == None <==> ValidType(s)
  {
    hide IsTokenChar, CheckDisposition, IsToken;
    if CheckDisposition(s) == None { AcceptedType(s); }
    if IsToken(s) { AcceptedToken(s); }
    if major, sub :| IsPair(s, major, sub) { AcceptedPair(s, major, sub); }
  }

  lemma AcceptedType(s: Text)
    requires CheckDisposition(s) == None
    ensures ValidType(s)
  {
    hide IsTokenChar;
    var t := ConsumeToken(s);
    TokenPrefix(s);
    assert s == t.0 + t.1;
    if t.1 != [] {
      var sub := ConsumeToken(t.1[1..]);
      TokenPrefix(t.1[1..]);
      assert t.1 == [SLASH] + t.1[1..] && t.1[1..] == sub.0 + sub.1 && sub.0 + [] == sub.0;
      assert s == t.0 + [SLASH] + sub.0;
      assert IsPair(s, t.0, sub.0);
    }
  }

  lemma AcceptedToken(s: Text)
    requires IsToken(s)
    ensures CheckDisposition(s) == None
  {
    hide IsTokenChar;
    assert s + [] == s;
    TokenLenOf(s, []);
  }

  lemma AcceptedPair(s: Text, major: Text, sub: Text)
    requires IsPair(s, major, sub)
    ensures CheckDisposition(s) == None
  {
    hide IsTokenChar;
    SlashEnds();
    assert s == major + ([SLASH] + sub) && ([SLASH] + sub)[1..] == sub && sub + [] == sub;
    TokenLenOf(major, [SLASH] + sub);
    TokenLenOf(sub, []);
  }

  // ----- quoted strings -----

  /** A character of a quoted string as it is, or behind a backslash. */
  datatype Mark = Char(c: Byte) | Escaped(c: Byte)

  function MarkText(m: Mark): Text { if m.Char? then [m.c] else [BACKSLASH, m.c] }

  function MarksText(ms: seq<Mark>): Text { if ms == [] then [] else MarkText(ms[0]) + MarksText(ms[1..]) }

  function MarksValue(ms: seq<Mark>): (v: Text)
    ensures |v| == |ms| && forall k | 0 <= k < |ms| :: v[k] == ms[k].c
  {
    seq(|ms|, k requires 0 <= k < |ms| => ms[k].c)
  }

  /** The inside of a quoted string: only special characters are escaped, there are no quotes
      or line breaks, and a backslash that is meant literally stands before a character that
      is not special (lines 304-315). */
  predicate MarksOk(ms: seq<Mark>) { forall k | 0 <= k < |ms| :: MarkOk(ms, k) }

  predicate MarkOk(ms: seq<Mark>, k: int)
    requires 0 <= k < |ms|
  {
    match ms[k]
    case Escaped(c) => IsTSpecial(c)
    case Char(c) =>
      c != QUOTE && c != CR && c != NL && (c == BACKSLASH ==> k + 1 < |ms| && ms[k + 1].Char? && !IsTSpecial(ms[k + 1].c))
  }

  lemma {:induction false} QuotedMarks(pre: Text, ms: seq<Mark>, tail: Text)
    requires MarksOk(ms)
    ensures QuotedFrom(pre + MarksText(ms) + [QUOTE] + tail, |pre|) == Some((MarksValue(ms), |pre| + |MarksText(ms)| + 1))
    decreases ms
  {
    hide IsTSpecial;
    var v := pre + MarksText(ms) + [QUOTE] + tail;
    if ms == [] {
      assert v[|pre|] == QUOTE;
      assert MarksValue(ms) == [];
    } else {
      var head, rest := MarkText(ms[0]), ms[1..];
      assert v == (pre + head) + MarksText(rest) + [QUOTE] + tail;
      MarksTail(ms);
      assert MarkOk(ms, 0);
      QuotedMarks(pre + head, rest, tail);
      assert v[|pre|] == head[0] && (|head| == 2 ==> v[|pre| + 1] == ms[0].c);
      if ms[0] == Char(BACKSLASH) {
        assert rest[0] == ms[1] && MarksText(rest)[0] == rest[0].c;
        assert v[|pre| + 1] == rest[0].c;
      }
      assert MarksValue(ms) == [ms[0].c] + MarksValue(rest);
      QuoteSpecial();
    }
  }

  lemma QuoteSpecial()
    ensures IsTSpecial(QUOTE) && IsTSpecial(BACKSLASH)
  {
  }

  lemma MarksTail(ms: seq<Mark>)
    requires ms != [] && MarksOk(ms)
    ensures MarksOk(ms[1..])
  {
    hide IsTSpecial;
    forall k | 0 <= k < |ms[1..]|
      ensures MarkOk(ms[1..], k)
    {
      assert MarkOk(ms, k + 1);
    }
  }

  // ----- parameters -----

  /** White space. */
  predicate Blank(g: Text) { forall k | 0 <= k < |g| :: IsSpaceByte(g[k]) }

  /** Text that begins with something to be seen. */
  predicate Visible(s: Text) { s == [] || (s[0] < 0x80 && !IsSpaceByte(s[0])) }

  lemma {:induction false} TrimBlank(u: Unicode, g: Text, s: Text)
    requires Blank(g) && Visible(s)
    ensures TrimLeft(u, g + s) == s
    decreases g
  {
    if g == [] {
      assert g + s == s;
    } else {
      assert (g + s)[1..] == g[1..] + s;
      TrimBlank(u, g[1..], s);
    }
  }

  lemma {:induction false} TrimBlankRight(u: Unicode, s: Text, g: Text)
    requires Blank(g) && (s == [] || (s[|s| - 1] < 0x80 && !IsSpaceByte(s[|s| - 1])))
    ensures TrimRight(u, s + g) == s
    decreases g
  {
    if g == [] {
      assert s + g == s;
    } else {
      assert (s + g)[..|s + g| - 1] == s + g[..|g| - 1];
      TrimBlankRight(u, s, g[..|g| - 1]);
    }
  }

  datatype Written = Bare(token: Text) | Quoted(marks: seq<Mark>)

  function WrittenText(w: Written): Text {
    match w
    case Bare(token) => token
    case Quoted(marks) => [QUOTE] + MarksText(marks) + [QUOTE]
  }

  function WrittenValue(w: Written): Text {
    match w
    case Bare(token) => token
    case Quoted(marks) => MarksValue(marks)
  }

  /** A parameter with the white space before and after its semicolon and around its equals
      sign. */
  datatype Item = Item(g0: Text, g1: Text, name: Text, g2: Text, g3: Text, written: Written)

  function Tail(i: Item): Text { i.g2 + ([EQUALS] + (i.g3 + WrittenText(i.written))) }

  function ItemText(i: Item): Text { i.g0 + ([SEMICOLON] + (i.g1 + (i.name + Tail(i)))) }

  predicate WrittenOk(w: Written) {
    match w
    case Bare(token) => IsToken(token)
    case Quoted(marks) => MarksOk(marks)
  }

  predicate ItemOk(i: Item) {
    Blank(i.g0) && Blank(i.g1) && Blank(i.g2) && Blank(i.g3) && IsToken(i.name) && WrittenOk(i.written)
  }

  /** The name a parameter is stored under. */
  function Key(i: Item): Text { LowerAscii(i.name) }

  function Value(i: Item): Text { WrittenValue(i.written) }

  lemma WrittenRead(w: Written, tail: Text)
    requires WrittenOk(w) && EndsToken(tail)
    ensures ConsumedValue(WrittenText(w) + tail) == (WrittenValue(w), tail)
    ensures WrittenText(w) != [] && Visible(WrittenText(w) + tail)
  {
    hide IsTSpecial;
    match w
    case Bare(token) =>
      TokenLenOf(token, tail);
      TokenVisible(token);
      assert IsTokenChar((token + tail)[0]);
      QuoteEnds();
    case Quoted(marks) =>
      var v := [QUOTE] + MarksText(marks) + [QUOTE] + tail;
      QuotedMarks([QUOTE], marks, tail);
      assert WrittenText(w) + tail == v;
      assert v[|MarksText(marks)| + 2..] == tail;
  }

  lemma QuoteEnds()
    ensures !IsTokenChar(QUOTE) && !IsTokenChar(EQUALS) && !IsTokenChar(SEMICOLON) && forall c: Byte | IsSpaceByte(c) :: !IsTokenChar(c)
  {
  }

  lemma TokenVisible(t: Text)
    requires IsToken(t)
    ensures Visible(t)
  {
  }

  lemma BlankEnds(g: Text, s: Text)
    requires Blank(g) && EndsToken(s)
    ensures EndsToken(g + s)
  {
    hide IsTokenChar;
    QuoteEnds();
    if g == [] { assert g + s == s; } else { assert (g + s)[0] == g[0]; }
  }

  /** A parameter is read: its name in lower case, its value, and the rest. */
  lemma ItemRead(u: Unicode, i: Item, tail: Text)
    requires ItemOk(i) && EndsToken(tail)
    ensures var w := [SEMICOLON] + (i.g1 + (i.name + (Tail(i) + tail)));
      ConsumeMediaParam(u, w) == (Key(i), Value(i), tail) && Key(i) != []
  {
    hide IsTokenChar, IsTSpecial, ConsumedValue, TrimLeft, TokenLen, WrittenText, WrittenValue, Visible, IsSpaceByte;
    var vt := WrittenText(i.written) + tail;
    var after := i.g2 + ([EQUALS] + (i.g3 + vt));
    AfterName(i, tail);
    var w := [SEMICOLON] + (i.g1 + (i.name + after));
    SeenSigns(i.name, after, vt, i.g1, i.g3);
    assert TrimLeft(u, w) == w by { assert [] + w == w; TrimBlank(u, [], w); }
    assert w[1..] == i.g1 + (i.name + after);
    TrimBlank(u, i.g1, i.name + after);
    QuoteEnds();
    BlankEnds(i.g2, [EQUALS] + (i.g3 + vt));
    TokenLenOf(i.name, after);
    TokenIsAscii(i.name);
    TrimBlank(u, i.g2, [EQUALS] + (i.g3 + vt));
    assert ([EQUALS] + (i.g3 + vt))[1..] == i.g3 + vt;
    WrittenRead(i.written, tail);
    TrimBlank(u, i.g3, vt);
    assert |vt| > |tail|;
  }

  lemma AfterName(i: Item, tail: Text)
    ensures Tail(i) + tail == i.g2 + ([EQUALS] + (i.g3 + (WrittenText(i.written) + tail)))
  {
  }

  lemma SeenSigns(name: Text, after: Text, vt: Text, g1: Text, g3: Text)
    requires IsToken(name)
    ensures Visible([SEMICOLON] + (g1 + (name + after))) && Visible(name + after) && Visible([EQUALS] + (g3 + vt))
  {
    TokenVisible(name);
    assert (name + after)[0] == name[0];
  }

  // ----- lists of parameters -----

  function ItemsText(items: seq<Item>): Text { if items == [] then [] else ItemText(items[0]) + ItemsText(items[1..]) }

  predicate ItemsOk(items: seq<Item>) { forall k | 0 <= k < |items| :: ItemOk(items[k]) }

  /** The value written under a name. */
  function Find(items: seq<Item>, key: Text): Option<Text> {
    if items == [] then None else if Key(items[0]) == key then Some(Value(items[0])) else Find(items[1..], key)
  }

  /** The value stored under a name. */
  function Lookup(p: Pieces, key: Text): Option<Text> {
    var idx := IndexByte(key, STAR);
    if idx == -1 then (if key in p.plain then Some(p.plain[key]) else None)
    else
      var pieces := PiecesOf(p.starred, key[..idx]);
      if key in pieces then Some(pieces[key]) else None
  }

  /** Storing fails for a name that is there, and otherwise adds it to the others. */
  lemma AddedLookup(p: Pieces, key: Text, value: Text)
    ensures Added(p, key, value).Some? <==> Lookup(p, key).None?
    ensures Added(p, key, value).Some? ==>
      forall k :: Lookup(Added(p, key, value).value, k) == if k == key then Some(value) else Lookup(p, k)
  {
    hide IndexByte;
  }

  /** No name is repeated, or there already. */
  ghost predicate Fresh(items: seq<Item>, p: Pieces) {
    && (forall k | 0 <= k < |items| :: Lookup(p, Key(items[k])).None?)
    && forall j, k | 0 <= j < k < |items| :: Key(items[j]) != Key(items[k])
  }

  lemma StartsBlank(i: Item, tail: Text)
    requires ItemOk(i)
    ensures EndsToken(ItemText(i) + tail)
  {
    QuoteEnds();
    var rest := [SEMICOLON] + (i.g1 + (i.name + Tail(i)));
    BlankEnds(i.g0, rest + tail);
    assert ItemText(i) + tail == i.g0 + (rest + tail);
  }

  lemma RestEnds(items: seq<Item>, end: Text)
    requires ItemsOk(items) && EndsToken(end)
    ensures EndsToken(ItemsText(items) + end)
  {
    hide ItemText, ItemOk;
    if items == [] {
      assert [] + end == end;
    } else {
      StartsBlank(items[0], ItemsText(items[1..]) + end);
      Assoc(ItemText(items[0]), ItemsText(items[1..]), end);
    }
  }

  /** One parameter is taken off the front and stored. */
  lemma CollectOne(u: Unicode, i: Item, tail: Text, p: Pieces)
    requires ItemOk(i) && EndsToken(tail)
    ensures Collect(u, ItemText(i) + tail, p)
      == match Added(p, Key(i), Value(i)) case None => Duplicate case Some(q) => Collect(u, tail, q)
  {
    hide ConsumeMediaParam, Added, TrimLeft, IsToken, WrittenText, WrittenOk;
    var w := [SEMICOLON] + (i.g1 + (i.name + (Tail(i) + tail)));
    ItemSplit(i, tail);
    TrimBlank(u, i.g0, w);
    ItemRead(u, i, tail);
  }

  lemma ItemSplit(i: Item, tail: Text)
    ensures ItemText(i) + tail == i.g0 + ([SEMICOLON] + (i.g1 + (i.name + (Tail(i) + tail))))
  {
    hide Tail;
    Assoc(i.name, Tail(i), tail);
    Assoc(i.g1, i.name + Tail(i), tail);
    Assoc([SEMICOLON], i.g1 + (i.name + Tail(i)), tail);
    Assoc(i.g0, [SEMICOLON] + (i.g1 + (i.name + Tail(i))), tail);
  }

  lemma ItemsCons(items: seq<Item>, end: Text)
    requires items != []
    ensures ItemsText(items) + end == ItemText(items[0]) + (ItemsText(items[1..]) + end)
  {
    hide ItemText;
    Assoc(ItemText(items[0]), ItemsText(items[1..]), end);
  }

  /** Different names: all are stored. */
  lemma {:induction false} CollectItems(u: Unicode, items: seq<Item>, end: Text, p: Pieces) returns (q: Pieces)
    requires ItemsOk(items) && EndsToken(end) && Fresh(items, p)
    ensures Collect(u, ItemsText(items) + end, p) == Collect(u, end, q)
    ensures forall k :: Lookup(q, k) == if Find(items, k).Some? then Find(items, k) else Lookup(p, k)
    decreases items
  {
    hide Collect, ItemOk, ItemText, Key, Value, Added, Lookup;
    if items == [] {
      q := p;
      assert ItemsText(items) + end == end;
    } else {
      var i, rest := items[0], items[1..];
      ItemsCons(items, end);
      RestEnds(rest, end);
      CollectOne(u, i, ItemsText(rest) + end, p);
      AddedLookup(p, Key(i), Value(i));
      var p1 := Added(p, Key(i), Value(i)).value;
      assert Fresh(rest, p1);
      q := CollectItems(u, rest, end, p1);
      Unrepeated(items);
    }
  }

  lemma Unrepeated(items: seq<Item>)
    requires items != [] && forall k | 0 < k < |items| :: Key(items[0]) != Key(items[k])
    ensures Find(items[1..], Key(items[0])) == None
  {
    hide Key, Value;
    if Find(items[1..], Key(items[0])).Some? { var k := Found(items[1..], Key(items[0])); }
  }

  lemma {:induction false} Found(items: seq<Item>, key: Text) returns (k: nat)
    requires Find(items, key).Some?
    ensures k < |items| && Key(items[k]) == key && Find(items, key) == Some(Value(items[k]))
    decreases items
  {
    hide Key, Value;
    if Key(items[0]) == key {
      k := 0;
    } else {
      k := Found(items[1..], key);
      k := k + 1;
    }
  }

  /** A name that is repeated is an error. */
  lemma {:induction false} CollectClash(u: Unicode, items: seq<Item>, end: Text, p: Pieces)
    requires ItemsOk(items) && EndsToken(end) && !Fresh(items, p)
    ensures Collect(u, ItemsText(items) + end, p) == Duplicate
    decreases items
  {
    hide Collect, ItemOk, ItemText, Key, Value, Added, Lookup;
    if items != [] {
      var i, rest := items[0], items[1..];
      ItemsCons(items, end);
      RestEnds(rest, end);
      CollectOne(u, i, ItemsText(rest) + end, p);
      AddedLookup(p, Key(i), Value(i));
      if Added(p, Key(i), Value(i)).Some? {
        var p1 := Added(p, Key(i), Value(i)).value;
        if Fresh(rest, p1) {
          forall k | 0 <= k < |items|
            ensures Lookup(p, Key(items[k])).None? && (k > 0 ==> Key(items[k]) != Key(i))
          {
            if k > 0 { assert items[k] == rest[k - 1]; }
          }
          forall j, k | 0 <= j < k < |items|
            ensures Key(items[j]) != Key(items[k])
          {
            if j > 0 { assert items[j] == rest[j - 1] && items[k] == rest[k - 1]; }
          }
        }
        CollectClash(u, rest, end, p1);
      }
    }
  }

  // ----- the end of the text -----

  lemma CollectBlank(u: Unicode, g: Text, p: Pieces)
    requires Blank(g)
    ensures Collect(u, g, p) == Done(p) && EndsToken(g)
  {
    hide ConsumeMediaParam, Added;
    assert g + [] == g;
    TrimBlank(u, g, []);
    BlankEnds(g, []);
  }

  /** A semicolon with nothing behind it is not an error, but it ends the work: what has a star
      in its name is left out. */
  lemma CollectTrailing(u: Unicode, g0: Text, g1: Text, p: Pieces)
    requires Blank(g0) && Blank(g1)
    ensures Collect(u, g0 + [SEMICOLON] + g1, p) == Trailing(p.plain) && EndsToken(g0 + [SEMICOLON] + g1)
  {
    hide Added, IsTokenChar, TokenLen, IsSpaceByte, TrimLeft, TrimRight;
    var w := [SEMICOLON] + g1;
    QuoteEnds();
    SemicolonVisible();
    assert g0 + [SEMICOLON] + g1 == g0 + w && [] + w == w && g1 + [] == g1 && w[1..] == g1;
    TrimBlank(u, g0, w);
    TrimBlank(u, [], w);
    TrimBlank(u, g1, []);
    TrimBlankRight(u, [SEMICOLON], g1);
    BlankEnds(g0, w);
    NoTokenInNothing(u);
  }

  lemma SemicolonVisible()
    ensures !IsSpaceByte(SEMICOLON) && !IsSpaceByte(EQUALS)
  {
  }

  lemma NoTokenInNothing(u: Unicode)
    ensures ConsumeToken([]) == ([], []) && ToLower(u, []) == []
  {
  }

  /** What cannot be read as a parameter: no semicolon, no name, no equals sign, no value, and a
      quoted string that does not end or is broken by the end of a line. */
  datatype Flaw =
    | NoSemicolon(rest: Text)
    | NoName(g1: Text, rest: Text)
    | NoEquals(g1: Text, name: Text, g2: Text, rest: Text)
    | NoValue(g1: Text, name: Text, g2: Text, g3: Text, rest: Text)
    | OpenQuote(g1: Text, name: Text, g2: Text, g3: Text, marks: seq<Mark>, rest: Text)

  function FlawText(f: Flaw): Text {
    match f
    case NoSemicolon(rest) => rest
    case NoName(g1, rest) => [SEMICOLON] + (g1 + rest)
    case NoEquals(g1, name, g2, rest) => [SEMICOLON] + (g1 + (name + (g2 + rest)))
    case NoValue(g1, name, g2, g3, rest) => [SEMICOLON] + (g1 + (name + (g2 + ([EQUALS] + (g3 + rest)))))
    case OpenQuote(g1, name, g2, g3, marks, rest) =>
      [SEMICOLON] + (g1 + (name + (g2 + ([EQUALS] + (g3 + ([QUOTE] + MarksText(marks) + rest))))))
  }

  predicate FlawOk(f: Flaw) {
    && IsAscii(FlawText(f))
    && match f
       case NoSemicolon(rest) => rest != [] && Visible(rest) && EndsToken(rest) && rest[0] != SEMICOLON
       case NoName(g1, rest) => Blank(g1) && rest != [] && Visible(rest) && EndsToken(rest)
       case NoEquals(g1, name, g2, rest) =>
         Blank(g1) && IsToken(name) && Blank(g2) && Visible(rest) && EndsToken(g2 + rest) && (rest == [] || rest[0] != EQUALS)
       case NoValue(g1, name, g2, g3, rest) =>
         Blank(g1) && IsToken(name) && Blank(g2) && Blank(g3) && Visible(rest) && EndsToken(rest) && (rest == [] || rest[0] != QUOTE)
       case OpenQuote(g1, name, g2, g3, marks, rest) =>
         Blank(g1) && IsToken(name) && Blank(g2) && Blank(g3) && MarksOk(marks) && (rest == [] || rest[0] == CR || rest[0] == NL)
  }

  lemma {:induction false} OpenMarks(pre: Text, ms: seq<Mark>, rest: Text)
    requires MarksOk(ms) && (rest == [] || rest[0] == CR || rest[0] == NL)
    ensures QuotedFrom(pre + MarksText(ms) + rest, |pre|) == None
    decreases ms
  {
    hide IsTSpecial;
    var v := pre + MarksText(ms) + rest;
    if ms != [] {
      var head, tail := MarkText(ms[0]), ms[1..];
      assert v == (pre + head) + MarksText(tail) + rest;
      MarksTail(ms);
      assert MarkOk(ms, 0);
      OpenMarks(pre + head, tail, rest);
      assert v[|pre|] == head[0] && (|head| == 2 ==> v[|pre| + 1] == ms[0].c);
      if ms[0] == Char(BACKSLASH) {
        assert tail[0] == ms[1] && MarksText(tail)[0] == tail[0].c;
        assert v[|pre| + 1] == tail[0].c;
      }
      QuoteSpecial();
    } else if rest != [] {
      assert v[|pre|] == rest[0];
    }
  }

  /** Nothing is consumed. */
  lemma FlawRead(u: Unicode, f: Flaw)
    requires FlawOk(f)
    ensures ConsumeMediaParam(u, FlawText(f)) == ([], [], FlawText(f))
  {
    hide IsTokenChar, IsTSpecial, ConsumedValue, TrimLeft, TokenLen, IsSpaceByte, MarksText, IsToken, AllToken, IsAscii;
    var w := FlawText(f);
    SemicolonVisible();
    FlawVisible(f);
    assert [] + w == w;
    TrimBlank(u, [], w);
    match f
    case NoSemicolon(rest) =>
    case NoName(g1, rest) =>
      assert w[1..] == g1 + rest && [] + rest == rest;
      TrimBlank(u, g1, rest);
      TokenLenOf([], rest);
      NoTokenInNothing(u);
    case NoEquals(g1, name, g2, rest) =>
      NameRead(u, g1, name, g2 + rest);
      TrimBlank(u, g2, rest);
    case NoValue(g1, name, g2, g3, rest) =>
      SignRead(u, g1, name, g2, g3, rest);
      NoValueRead(rest);
    case OpenQuote(g1, name, g2, g3, marks, rest) =>
      var q := [QUOTE] + MarksText(marks) + rest;
      QuoteVisible();
      SignRead(u, g1, name, g2, g3, q);
      OpenMarks([QUOTE], marks, rest);
      OpenRead(q);
  }

  lemma FlawVisible(f: Flaw)
    requires FlawOk(f)
    ensures Visible(FlawText(f)) && FlawText(f) != []
  {
    SemicolonVisible();
  }

  lemma QuoteVisible()
    ensures !IsSpaceByte(QUOTE)
  {
  }

  lemma NoValueRead(rest: Text)
    requires EndsToken(rest) && (rest == [] || rest[0] != QUOTE)
    ensures ConsumedValue(rest) == ([], rest)
  {
    assert [] + rest == rest;
    TokenLenOf([], rest);
  }

  lemma OpenRead(q: Text)
    requires q != [] && q[0] == QUOTE && QuotedFrom(q, 1) == None
    ensures ConsumedValue(q) == ([], q)
  {
  }

  /** Reading up to the name. */
  lemma NameRead(u: Unicode, g1: Text, name: Text, after: Text)
    requires Blank(g1) && IsToken(name) && EndsToken(after)
    ensures var w := [SEMICOLON] + (g1 + (name + after));
      && ConsumeToken(TrimLeft(u, w[1..])) == (name, after)
      && ToLower(u, name) == LowerAscii(name) != []
  {
    hide IsTokenChar, TrimLeft, TokenLen, IsSpaceByte;
    var w := [SEMICOLON] + (g1 + (name + after));
    assert w[1..] == g1 + (name + after);
    SeenSigns(name, after, [], g1, []);
    TrimBlank(u, g1, name + after);
    TokenLenOf(name, after);
    TokenIsAscii(name);
  }

  /** Reading up to the equals sign and the white space behind it. */
  lemma SignRead(u: Unicode, g1: Text, name: Text, g2: Text, g3: Text, vt: Text)
    requires Blank(g1) && IsToken(name) && Blank(g2) && Blank(g3) && Visible(vt)
    ensures var after := g2 + ([EQUALS] + (g3 + vt)); var w := [SEMICOLON] + (g1 + (name + after));
      && ConsumeToken(TrimLeft(u, w[1..])) == (name, after) && ToLower(u, name) != []
      && TrimLeft(u, after) == [EQUALS] + (g3 + vt) && TrimLeft(u, ([EQUALS] + (g3 + vt))[1..]) == vt
  {
    hide IsTokenChar, TrimLeft, TokenLen, IsSpaceByte, IsToken;
    var sign := [EQUALS] + (g3 + vt);
    QuoteEnds();
    SemicolonVisible();
    BlankEnds(g2, sign);
    NameRead(u, g1, name, g2 + sign);
    TrimBlank(u, g2, sign);
    assert sign[1..] == g3 + vt;
    TrimBlank(u, g3, vt);
  }

  lemma {:induction false} TrimRightKeeps(u: Unicode, s: Text, k: nat)
    requires IsAscii(s) && k < |s| && !IsSpaceByte(s[k])
    ensures |TrimRight(u, s)| > k
    decreases s
  {
    if IsSpaceByte(s[|s| - 1]) { TrimRightKeeps(u, s[..|s| - 1], k); }
  }

  lemma {:induction false} TrimRightFront(u: Unicode, s: Text)
    ensures TrimRight(u, s) <= s
    decreases |s|
  {
    if s != [] {
      if s[|s| - 1] < 0x80 {
        if IsSpaceByte(s[|s| - 1]) { TrimRightFront(u, s[..|s| - 1]); }
      } else if 0 < u.spaceBack(s) <= |s| {
        TrimRightFront(u, s[..|s| - u.spaceBack(s)]);
      }
    }
  }

  /** Where something besides the semicolon can be seen. */
  function FlawAt(f: Flaw): nat {
    match f
    case NoSemicolon(rest) => 0
    case _ => 1 + |f.g1|
  }

  lemma FlawSeen(f: Flaw)
    requires FlawOk(f)
    ensures var w, k := FlawText(f), FlawAt(f); k < |w| && !IsSpaceByte(w[k]) && (k == 0 ==> w[0] != SEMICOLON)
  {
    hide IsTokenChar, IsSpaceByte, MarksText, MarksOk, IsAscii;
    match f
    case NoSemicolon(rest) =>
    case NoName(g1, rest) =>
      assert ([SEMICOLON] + (g1 + rest))[1 + |g1|] == rest[0];
    case NoEquals(g1, name, g2, rest) => NameSeen(g1, name, g2 + rest);
    case NoValue(g1, name, g2, g3, rest) => NameSeen(g1, name, g2 + ([EQUALS] + (g3 + rest)));
    case OpenQuote(g1, name, g2, g3, marks, rest) =>
      NameSeen(g1, name, g2 + ([EQUALS] + (g3 + ([QUOTE] + MarksText(marks) + rest))));
  }

  lemma NameSeen(g1: Text, name: Text, after: Text)
    requires IsToken(name)
    ensures var w := [SEMICOLON] + (g1 + (name + after)); 1 + |g1| < |w| && !IsSpaceByte(w[1 + |g1|])
  {
    var w := [SEMICOLON] + (g1 + (name + after));
    assert w[1 + |g1|] == name[0];
    TokenVisible(name);
  }

  /** Such text is an error. */
  lemma CollectFlaw(u: Unicode, g0: Text, f: Flaw, p: Pieces)
    requires Blank(g0) && FlawOk(f)
    ensures Collect(u, g0 + FlawText(f), p) == Invalid
  {
    var w := FlawText(f);
    FlawVisible(f);
    FlawSeen(f);
    FlawRead(u, f);
    TrimRightKeeps(u, w, FlawAt(f));
    TrimRightFront(u, w);
    hide FlawText, FlawOk, ConsumeMediaParam, Added, IsSpaceByte;
    TrimBlank(u, g0, w);
    assert [] + w == w;
    TrimBlank(u, [], w);
  }

  // ----- continuations -----

  /** s is n in decimal digits, without leading zeros. */
  predicate IsDecimal(s: Text, n: nat) {
    && s != [] && (|s| > 1 ==> s[0] != 48)
    && (forall k | 0 <= k < |s| :: 48 <= s[k] < 58) && DigitsValue(s) == n
  }

  function DigitsValue(s: Text): int {
    if s == [] then 0 else DigitsValue(s[..|s| - 1]) * 10 + s[|s| - 1] - 48
  }

  lemma {:induction false} DecimalIs(n: nat)
    ensures IsDecimal(Decimal(n), n) && (n > 0 ==> Decimal(n)[0] != 48)
  {
    if n >= 10 {
      DecimalIs(n / 10);
      assert Decimal(n)[..|Decimal(n)| - 1] == Decimal(n / 10);
    } else {
      assert DigitsValue(Decimal(n)[..0]) == 0;
    }
  }

  /** e is in the extended form and says v. */
  ghost predicate Says(u: Unicode, e: Text, v: Text) {
    exists charset, language, code :: IsExtended(u, e, charset, language, code) && Codes(code, v)
  }

  /** Piece n of a value is v: written as it is, or encoded, with the charset in piece 0; what
      cannot be decoded counts for nothing. */
  ghost predicate PieceIs(u: Unicode, items: seq<Item>, base: Text, n: nat, v: Text) {
    var plain, coded := Find(items, PieceName(base, n)), Find(items, PieceName(base, n) + [STAR]);
    if plain.Some? then v == plain.value
    else if coded.None? then false
    else if n == 0 then Says(u, coded.value, v) || (v == [] && forall w :: !Says(u, coded.value, w))
    else Codes(coded.value, v) || (v == [] && forall w :: !Codes(coded.value, w))
  }

  predicate HasNumber(items: seq<Item>, base: Text, n: nat) {
    Find(items, PieceName(base, n)).Some? || Find(items, PieceName(base, n) + [STAR]).Some?
  }

  /** The pieces from 0 up to the first number that is missing. */
  ghost predicate Continued(u: Unicode, items: seq<Item>, base: Text, vs: seq<Text>) {
    && vs != [] && !HasNumber(items, base, |vs|)
    && forall n | 0 <= n < |vs| :: PieceIs(u, items, base, n, vs[n])
  }

  /** What the names with a star say of base: base*=.. alone counts if it is there. */
  ghost predicate Contributes(u: Unicode, items: seq<Item>, base: Text, v: Text) {
    var single := Find(items, base + [STAR]);
    if single.Some? then Says(u, single.value, v)
    else exists vs :: Continued(u, items, base, vs) && v == Flatten(vs)
  }

  /** a has the value v: names have no star, and what the names with one say of a comes before
      what is written for a itself. */
  ghost predicate Means(u: Unicode, items: seq<Item>, a: Text, v: Text) {
    STAR !in a && (Contributes(u, items, a, v) || ((forall w :: !Contributes(u, items, a, w)) && Find(items, a) == Some(v)))
  }

  /** The pieces stored for base are those written. */
  ghost predicate Stored(items: seq<Item>, p: Pieces) { forall k :: Lookup(p, k) == Find(items, k) }

  lemma PieceStored(items: seq<Item>, p: Pieces, base: Text, rest: Text)
    requires Stored(items, p) && STAR !in base
    ensures var m, k := PiecesOf(p.starred, base), base + [STAR] + rest;
      (k in m <==> Find(items, k).Some?) && (k in m ==> Find(items, k) == Some(m[k]))
  {
    hide Find;
    var k := base + [STAR] + rest;
    assert k[..|base|] == base;
    IndexByteUnique(k, STAR, |base|);
    assert Lookup(p, k) == Find(items, k);
  }

  lemma NumberStored(items: seq<Item>, p: Pieces, base: Text, n: nat)
    requires Stored(items, p) && STAR !in base
    ensures var m := PiecesOf(p.starred, base);
      && (HasPiece(base, m, n) <==> HasNumber(items, base, n))
      && (PieceName(base, n) in m <==> Find(items, PieceName(base, n)).Some?)
      && (PieceName(base, n) in m ==> Find(items, PieceName(base, n)) == Some(m[PieceName(base, n)]))
      && (PieceName(base, n) + [STAR] in m ==> Find(items, PieceName(base, n) + [STAR]) == Some(m[PieceName(base, n) + [STAR]]))
  {
    hide Find, Stored, PiecesOf;
    PieceStored(items, p, base, Decimal(n));
    PieceStored(items, p, base, Decimal(n) + [STAR]);
    assert base + [STAR] + (Decimal(n) + [STAR]) == PieceName(base, n) + [STAR];
  }

  lemma SaysIff(u: Unicode, e: Text, v: Text)
    ensures Decode2231(u, e) == Some(v) <==> Says(u, e, v)
  {
    hide Decode2231, IsExtended, Codes;
    Decode2231Iff(u, e, v);
  }

  /** A piece is what Piece computes, and nothing else. */
  lemma PieceIff(u: Unicode, items: seq<Item>, p: Pieces, base: Text, n: nat, v: Text)
    requires Stored(items, p) && STAR !in base && HasPiece(base, PiecesOf(p.starred, base), n)
    ensures PieceIs(u, items, base, n, v) <==> v == Piece(u, base, PiecesOf(p.starred, base), n)
  {
    hide Find, Stored, PiecesOf, Decode2231, Unescaped, Says, Codes;
    NumberStored(items, p, base, n);
    var m := PiecesOf(p.starred, base);
    if PieceName(base, n) !in m {
      var e := m[PieceName(base, n) + [STAR]];
      forall w
        ensures (Decode2231(u, e) == Some(w) <==> Says(u, e, w)) && (Unescaped(e) == Some(w) <==> Codes(e, w))
      {
        SaysIff(u, e, w);
        UnescapedIff(e, w);
      }
    }
  }

  /** Joining is putting the pieces one after the other. */
  lemma {:induction false} JoinedPieces(u: Unicode, base: Text, m: Params, n: nat) returns (vs: seq<Text>)
    ensures Joined(u, base, m, n) == Flatten(vs) && !HasPiece(base, m, n + |vs|)
    ensures forall k: nat | n <= k < n + |vs| :: HasPiece(base, m, k) && vs[k - n] == Piece(u, base, m, k)
    decreases |Later(base, m, n)|
  {
    hide Piece, HasPiece, Later;
    if HasPiece(base, m, n) {
      LaterShrinks(base, m, n);
      var rest := JoinedPieces(u, base, m, n + 1);
      vs := [Piece(u, base, m, n)] + rest;
      assert vs[1..] == rest;
      forall k: nat | n <= k < n + |vs|
        ensures HasPiece(base, m, k) && vs[k - n] == Piece(u, base, m, k)
      {
        if k > n { assert vs[k - n] == rest[k - (n + 1)]; }
      }
      assert n + 1 + |rest| == n + |vs|;
    } else {
      vs := [];
    }
  }

  /** The pieces are the only ones there can be. */
  lemma ContinuedUnique(u: Unicode, items: seq<Item>, p: Pieces, base: Text, vs: seq<Text>, ws: seq<Text>)
    requires Stored(items, p) && STAR !in base && Continued(u, items, base, vs) && Continued(u, items, base, ws)
    ensures vs == ws
  {
    hide Find, Stored, PiecesOf, Says, Codes, Piece, PieceName;
    forall n | 0 <= n < |vs| && n < |ws|
      ensures vs[n] == ws[n]
    {
      PieceNumber(u, items, base, n, vs[n]);
      NumberStored(items, p, base, n);
      PieceIff(u, items, p, base, n, vs[n]);
      PieceIff(u, items, p, base, n, ws[n]);
    }
    if |vs| < |ws| { PieceNumber(u, items, base, |vs|, ws[|vs|]); }
    if |ws| < |vs| { PieceNumber(u, items, base, |ws|, vs[|ws|]); }
  }

  lemma PieceNumber(u: Unicode, items: seq<Item>, base: Text, n: nat, v: Text)
    requires PieceIs(u, items, base, n, v)
    ensures HasNumber(items, base, n)
  {
  }

  /** What is stitched together is what the names with a star say. */
  lemma StitchIff(u: Unicode, items: seq<Item>, p: Pieces, base: Text, v: Text)
    requires Stored(items, p) && STAR !in base
    ensures Stitch(u, base, PiecesOf(p.starred, base)) == Some(v) <==> Contributes(u, items, base, v)
  {
    hide Find, Stored, PiecesOf, Says, Continued, Decode2231, Joined;
    var m := PiecesOf(p.starred, base);
    PieceStored(items, p, base, []);
    assert base + [STAR] + [] == base + [STAR];
    if base + [STAR] in m {
      SaysIff(u, m[base + [STAR]], v);
    } else {
      ContinuedIff(u, items, p, base, v);
    }
  }

  lemma ContinuedIff(u: Unicode, items: seq<Item>, p: Pieces, base: Text, v: Text)
    requires Stored(items, p) && STAR !in base
    ensures var m := PiecesOf(p.starred, base);
      (HasPiece(base, m, 0) && Joined(u, base, m, 0) == v) <==> exists vs :: Continued(u, items, base, vs) && v == Flatten(vs)
  {
    hide Find, Stored, PiecesOf, Joined, Piece, PieceIs, HasNumber, HasPiece;
    var m := PiecesOf(p.starred, base);
    var vs := JoinedPieces(u, base, m, 0);
    NumberStored(items, p, base, |vs|);
    NumberStored(items, p, base, 0);
    forall n | 0 <= n < |vs|
      ensures PieceIs(u, items, base, n, vs[n])
    {
      assert vs[n - 0] == Piece(u, base, m, n);
      PieceIff(u, items, p, base, n, vs[n]);
    }
    if HasPiece(base, m, 0) {
      assert Continued(u, items, base, vs);
    }
    if ws :| Continued(u, items, base, ws) && v == Flatten(ws) {
      PieceNumber(u, items, base, 0, ws[0]);
      ContinuedUnique(u, items, p, base, vs, ws);
    }
  }

  // ----- whole texts -----

  /** A type with white space around it, parameters, and what comes after them. */
  function Document(pre: Text, t: Text, post: Text, items: seq<Item>, end: Text): Text {
    pre + t + post + (ItemsText(items) + end)
  }

  /** The type is valid, the parameters are in order, and after the type there is a semicolon
      or nothing. */
  ghost predicate DocumentOk(pre: Text, t: Text, post: Text, items: seq<Item>, end: Text) {
    Blank(pre) && ValidType(t) && Blank(post) && ItemsOk(items) && EndsToken(end) && EndsParam(ItemsText(items) + end)
  }

  const NOTHING: Pieces := Pieces(map[], map[])

  ghost predicate DistinctKeys(items: seq<Item>) { forall j, k | 0 <= j < k < |items| :: Key(items[j]) != Key(items[k]) }

  lemma FreshIff(items: seq<Item>)
    ensures Fresh(items, NOTHING) <==> DistinctKeys(items)
  {
    hide Key, IndexByte;
  }

  /** The type is cut off, trimmed and found valid. */
  lemma TypeRead(u: Unicode, pre: Text, t: Text, post: Text, rest: Text)
    requires Blank(pre) && ValidType(t) && Blank(post) && EndsParam(rest)
    ensures TypePart(pre + t + post + rest) == (pre + t + post, rest)
    ensures TrimSpace(u, ToLower(u, pre + t + post)) == LowerAscii(t) && CheckDisposition(LowerAscii(t)) == None
  {
    hide LowerAscii, TrimLeft, TrimRight, CheckDisposition, ValidType, IsSpaceByte, TypeText;
    TypeTextValid(t);
    LowerType(t);
    TypeAccepted(t);
    TypeCharacters(t);
    var head := LowerAscii(t);
    TypeIsAscii(t);
    BlankLower(pre);
    BlankLower(post);
    NoSemicolonIn(pre, t, post);
    SplitAtSemicolon(pre + t + post, rest);
    LowerConcat(pre + t, post);
    LowerConcat(pre, t);
    assert ToLower(u, pre + t + post) == pre + head + post;
    Assoc(pre, head, post);
    FirstVisible(head, post);
    TrimBlank(u, pre, head + post);
    TrimBlankRight(u, head, post);
  }

  lemma TypeIsAscii(t: Text)
    requires TypeText(t).Some?
    ensures IsAscii(t) && SEMICOLON !in t
  {
    var slash := IndexByte(t, SLASH);
    if slash >= 0 {
      IndexByteSpec(t, SLASH);
      assert forall k | 0 <= k < |t| :: t[k] == if k < slash then t[..slash][k] else if k == slash then SLASH else t[slash + 1..][k - slash - 1];
    }
  }

  lemma BlankLower(g: Text)
    requires Blank(g)
    ensures LowerAscii(g) == g && IsAscii(g) && SEMICOLON !in g
  {
    assert forall k | 0 <= k < |g| :: LowerAscii(g)[k] == LowerByte(g[k]) == g[k];
  }

  lemma NoSemicolonIn(pre: Text, t: Text, post: Text)
    requires SEMICOLON !in pre && SEMICOLON !in t && SEMICOLON !in post && IsAscii(pre) && IsAscii(t) && IsAscii(post)
    ensures SEMICOLON !in pre + t + post && IsAscii(pre + t + post)
  {
  }

  lemma FirstVisible(head: Text, post: Text)
    requires head != [] && IsAscii(head) && forall k | 0 <= k < |head| :: !IsSpaceByte(head[k])
    ensures Visible(head + post) && head[|head| - 1] < 0x80 && !IsSpaceByte(head[|head| - 1])
  {
    assert (head + post)[0] == head[0];
  }

  /** The result for a text whose parameters are collected. */
  lemma DocumentParsed(u: Unicode, pre: Text, t: Text, post: Text, items: seq<Item>, end: Text)
    requires DocumentOk(pre, t, post, items, end)
    ensures var o := Collect(u, ItemsText(items) + end, NOTHING); var r := Parsed(u, Document(pre, t, post, items, end));
      && (o.Invalid? ==> r == ParseResult(LowerAscii(t), None, Some(InvalidParameter)))
      && (o.Duplicate? ==> r == ParseResult([], None, Some(DuplicateName)))
      && (o.Trailing? ==> r == ParseResult(LowerAscii(t), Some(o.plain), None))
      && (o.Done? ==> r == ParseResult(LowerAscii(t), Some(o.pieces.plain + Stitched(u, o.pieces.starred)), None))
  {
    hide TypePart, TrimSpace, CheckDisposition, LowerAscii, ToLower, ValidType, Collect, ItemsText, ItemOk;
    TypeRead(u, pre, t, post, ItemsText(items) + end);
  }

  /** Line 140 on any text of the form, the parameters in any order, the names different in lower
      case: the type in lower case, and under every name what its pieces say, or else what was
      written for the name itself; nothing else. */
  lemma ParsedItems(u: Unicode, pre: Text, t: Text, post: Text, items: seq<Item>, end: Text)
    requires DocumentOk(pre, t, post, items, end) && Blank(end) && DistinctKeys(items)
    ensures var r := Parsed(u, Document(pre, t, post, items, end));
      && r.mediatype == LowerAscii(t) && r.err == None && r.params.Some?
      && (forall a | a in r.params.value :: Means(u, items, a, r.params.value[a]))
      && forall a, v | Means(u, items, a, v) :: a in r.params.value && r.params.value[a] == v
  {
    hide Means, Collect, ValidType, ItemOk, ItemsText, Key, Find, Stitched, Contributes, Parsed, LowerAscii, IsSpaceByte;
    FreshIff(items);
    var q := CollectItems(u, items, end, NOTHING);
    CollectBlank(u, end, q);
    DocumentParsed(u, pre, t, post, items, end);
    NothingStored(items, q);
    var v0 := Document(pre, t, post, items, end);
    var params := Parsed(u, v0).params.value;
    forall a | a in params
      ensures Means(u, items, a, params[a])
    {
      ParsedNames(u, v0, a);
      ResultAt(u, items, q, a, params[a]);
    }
    forall a, v | Means(u, items, a, v)
      ensures a in params && params[a] == v
    {
      MeansName(u, items, a, v);
      ResultAt(u, items, q, a, v);
    }
  }

  lemma MeansName(u: Unicode, items: seq<Item>, a: Text, v: Text)
    requires Means(u, items, a, v)
    ensures STAR !in a
  {
  }

  lemma NothingStored(items: seq<Item>, q: Pieces)
    requires forall k :: Lookup(q, k) == if Find(items, k).Some? then Find(items, k) else Lookup(NOTHING, k)
    ensures Stored(items, q)
  {
    hide Find, IndexByte;
    forall k
      ensures Lookup(q, k) == Find(items, k)
    {
      assert Lookup(NOTHING, k) == None;
    }
  }

  lemma ResultAt(u: Unicode, items: seq<Item>, q: Pieces, a: Text, v: Text)
    requires Stored(items, q) && STAR !in a
    ensures var params := q.plain + Stitched(u, q.starred);
      (a in params && params[a] == v) <==> Means(u, items, a, v)
  {
    hide Find, Contributes, Stitch;
    var s := Stitch(u, a, PiecesOf(q.starred, a));
    forall w
      ensures s == Some(w) <==> Contributes(u, items, a, w)
    {
      StitchIff(u, items, q, a, w);
    }
    NoPieces(u, a);
    IndexByteSpec(a, STAR);
    assert Lookup(q, a) == Find(items, a);
    if s.Some? { assert Contributes(u, items, a, s.value); }
  }

  lemma NoPieces(u: Unicode, a: Text)
    ensures Stitch(u, a, map[]) == None
  {
  }

  /** A name that is repeated, in whatever case, is an error. */
  lemma ParsedClash(u: Unicode, pre: Text, t: Text, post: Text, items: seq<Item>, end: Text)
    requires DocumentOk(pre, t, post, items, end) && !DistinctKeys(items)
    ensures Parsed(u, Document(pre, t, post, items, end)) == ParseResult([], None, Some(DuplicateName))
  {
    hide Collect, ValidType, ItemOk, ItemsText, Key, Find, Stitched, Parsed, LowerAscii;
    FreshIff(items);
    CollectClash(u, items, end, NOTHING);
    DocumentParsed(u, pre, t, post, items, end);
  }

  /** What cannot be read as a parameter is an error; the type is still returned. */
  lemma ParsedFlaw(u: Unicode, pre: Text, t: Text, post: Text, items: seq<Item>, g0: Text, f: Flaw)
    requires DocumentOk(pre, t, post, items, g0 + FlawText(f)) && Blank(g0) && FlawOk(f) && DistinctKeys(items)
    ensures Parsed(u, Document(pre, t, post, items, g0 + FlawText(f))) == ParseResult(LowerAscii(t), None, Some(InvalidParameter))
  {
    hide Collect, ValidType, ItemOk, ItemsText, Key, Find, Stitched, Parsed, LowerAscii, FlawText, FlawOk;
    FreshIff(items);
    var q := CollectItems(u, items, g0 + FlawText(f), NOTHING);
    CollectFlaw(u, g0, f, q);
    DocumentParsed(u, pre, t, post, items, g0 + FlawText(f));
  }

  /** A semicolon at the end is no error, but everything written under a name with a star is
      lost. */
  lemma ParsedTrailing(u: Unicode, pre: Text, t: Text, post: Text, items: seq<Item>, g0: Text, g1: Text)
    requires Blank(g0) && Blank(g1) && DocumentOk(pre, t, post, items, g0 + [SEMICOLON] + g1) && DistinctKeys(items)
    ensures var r := Parsed(u, Document(pre, t, post, items, g0 + [SEMICOLON] + g1));
      && r.mediatype == LowerAscii(t) && r.err == None && r.params.Some?
      && (forall a :: a in r.params.value <==> STAR !in a && Find(items, a).Some?)
      && forall a | a in r.params.value :: Find(items, a) == Some(r.params.value[a])
  {
    hide Collect, ValidType, ItemOk, ItemsText, Key, Find, Stitched, Parsed, LowerAscii;
    var end := g0 + [SEMICOLON] + g1;
    FreshIff(items);
    var q := CollectItems(u, items, end, NOTHING);
    CollectTrailing(u, g0, g1, q);
    DocumentParsed(u, pre, t, post, items, end);
    NothingStored(items, q);
    var v0 := Document(pre, t, post, items, end);
    var params := Parsed(u, v0).params.value;
    assert params == q.plain;
    forall a
      ensures a in params <==> STAR !in a && Find(items, a).Some?
      ensures a in params ==> Find(items, a) == Some(params[a])
    {
      if a in params { ParsedNames(u, v0, a); }
      if STAR !in a { PlainAt(items, q, a); }
    }
  }

  lemma PlainAt(items: seq<Item>, q: Pieces, a: Text)
    requires Stored(items, q) && STAR !in a
    ensures (a in q.plain <==> Find(items, a).Some?) && (a in q.plain ==> Find(items, a) == Some(q.plain[a]))
  {
    hide Find;
    IndexByteSpec(a, STAR);
    assert Lookup(q, a) == Find(items, a);
  }

  /** A value in pieces, in whatever order they are written: put together by their numbers, up
      to the first number that is missing. Without piece 0 there is only what was written for
      the name itself. */
  lemma ContinuationRead(u: Unicode, pre: Text, t: Text, post: Text, items: seq<Item>, end: Text, base: Text, vs: seq<Text>)
    requires DocumentOk(pre, t, post, items, end) && Blank(end) && DistinctKeys(items)
    requires STAR !in base && Find(items, base + [STAR]) == None && !HasNumber(items, base, |vs|)
    requires forall n | 0 <= n < |vs| :: PieceIs(u, items, base, n, vs[n])
    ensures var r := Parsed(u, Document(pre, t, post, items, end));
      && r.err == None && r.params.Some?
      && (vs != [] ==> base in r.params.value && r.params.value[base] == Flatten(vs))
      && (vs == [] ==> (base in r.params.value <==> Find(items, base).Some?))
      && (vs == [] && base in r.params.value ==> Find(items, base) == Some(r.params.value[base]))
  {
    hide DocumentOk, DistinctKeys, Find, PieceIs, HasNumber, Parsed, Document, PieceName;
    ParsedItems(u, pre, t, post, items, end);
    if vs != [] {
      assert Continued(u, items, base, vs);
      assert Contributes(u, items, base, Flatten(vs));
      assert Means(u, items, base, Flatten(vs));
    } else {
      forall w
        ensures !Contributes(u, items, base, w)
      {
        if ws :| Continued(u, items, base, ws) && w == Flatten(ws) { PieceNumber(u, items, base, 0, ws[0]); }
      }
      if Find(items, base).Some? { assert Means(u, items, base, Find(items, base).value); }
    }
  }

  /** A semicolon at the end makes no difference exactly if the names with a star say nothing
      that is not written without one, too. */
  lemma TrailingHarmlessIff(u: Unicode, pre: Text, t: Text, post: Text, items: seq<Item>)
    requires DocumentOk(pre, t, post, items, []) && DocumentOk(pre, t, post, items, [SEMICOLON]) && DistinctKeys(items)
    ensures Parsed(u, Document(pre, t, post, items, [SEMICOLON])) == Parsed(u, Document(pre, t, post, items, []))
      <==> forall a, v | STAR !in a && Contributes(u, items, a, v) :: Find(items, a) == Some(v)
  {
    hide DocumentOk, DistinctKeys, Find, Contributes, Parsed, Document, LowerAscii;
    assert [] + [SEMICOLON] + [] == [SEMICOLON];
    ParsedItems(u, pre, t, post, items, []);
    ParsedTrailing(u, pre, t, post, items, [], []);
    var r1, r2 := Parsed(u, Document(pre, t, post, items, [])), Parsed(u, Document(pre, t, post, items, [SEMICOLON]));
    var p1, p2 := r1.params.value, r2.params.value;
    if forall a, v | STAR !in a && Contributes(u, items, a, v) :: Find(items, a) == Some(v) {
      forall a
        ensures (a in p1 <==> a in p2) && (a in p1 ==> p1[a] == p2[a])
      {
        if a in p1 {
          assert Means(u, items, a, p1[a]);
        }
        if a in p2 { KeptAt(u, items, a, p2[a]); }
      }
      assert p1 == p2;
    } else {
      var a, v :| STAR !in a && Contributes(u, items, a, v) && Find(items, a) != Some(v);
      assert Means(u, items, a, v);
    }
  }

  lemma KeptAt(u: Unicode, items: seq<Item>, a: Text, v: Text)
    requires STAR !in a && Find(items, a) == Some(v) && forall w | Contributes(u, items, a, w) :: Find(items, a) == Some(w)
    ensures Means(u, items, a, v)
  {
    hide Contributes, Find;
    if w :| Contributes(u, items, a, w) { assert w == v; }
  }

  const SAMPLE: Text := [117, 116, 102, 45, 56, 39, 39, 99]  // utf-8''c

  /** "a;b*=utf-8''c" has the parameter b; with another semicolon behind it, it has none. */
  lemma TrailingExample(u: Unicode)
    ensures var v: Text := [97, 59, 98, 42, 61] + SAMPLE;
      && Parsed(u, v) == ParseResult([97], Some(map[[98] := [99]]), None)
      && Parsed(u, v + [SEMICOLON]) == ParseResult([97], Some(map[]), None)
  {
    hide LowerAscii, Find, Contributes, IsToken, Parsed, ItemText, AllToken, IndexByte;
    var i := Item([], [], [98, 42], [], [], Bare(SAMPLE));
    SampleTokens();
    SampleText(i);
    assert ItemsOk([i]) by { assert ItemOk(i); }
    assert [] + [SEMICOLON] + [] == [SEMICOLON];
    ParsedItems(u, [], [97], [], [i], []);
    ParsedTrailing(u, [], [97], [], [i], [], []);
    var p1, p2 := Parsed(u, Document([], [97], [], [i], [])).params.value, Parsed(u, Document([], [97], [], [i], [SEMICOLON])).params.value;
    forall a
      ensures (a in p1 <==> a == [98]) && (a in p1 ==> p1[a] == [99]) && a !in p2
    {
      if a in p1 {
        assert Means(u, [i], a, p1[a]);
        SampleMeaning(u, i, a, p1[a]);
      }
      SampleMeaning(u, i, a, [99]);
      if a == [98] { assert Means(u, [i], a, [99]); }
    }
    assert p1 == map[[98] := [99]] && p2 == map[];
  }

  lemma SampleTokens()
    ensures IsToken(SAMPLE) && IsToken([98, 42]) && IsToken([97]) && LowerAscii([98, 42]) == [98, 42] && LowerAscii([97]) == [97]
  {
  }

  lemma SampleText(i: Item)
    requires i == Item([], [], [98, 42], [], [], Bare(SAMPLE))
    ensures var v: Text := [97, 59, 98, 42, 61] + SAMPLE;
      && ItemsText([i]) == ItemText(i) && ItemText(i)[0] == SEMICOLON
      && Document([], [97], [], [i], []) == v && Document([], [97], [], [i], [SEMICOLON]) == v + [SEMICOLON]
  {
    assert ItemText(i) == [59, 98, 42, 61] + SAMPLE;
    assert ItemsText([i]) == ItemText(i) + ItemsText([]) == ItemText(i);
  }

  lemma SampleMeaning(u: Unicode, i: Item, a: Text, v: Text)
    requires i == Item([], [], [98, 42], [], [], Bare(SAMPLE))
    ensures STAR !in a ==> (Contributes(u, [i], a, v) <==> a == [98] && v == [99]) && Find([i], a) == None
  {
    hide Says, Decode2231, LowerAscii;
    SampleTokens();
    if STAR !in a {
      assert forall k :: Find([i], k) == if k == [98, 42] then Some(SAMPLE) else None;
      assert a != [98, 42] by { assert [98, 42][1] == STAR; }
      assert a + [STAR] == [98, 42] <==> a == [98] by { assert (a + [STAR])[..|a|] == a; }
      SampleSays(u, v);
      if vs :| Continued(u, [i], a, vs) {
        PieceNumber(u, [i], a, 0, vs[0]);
        ZeroName(a);
      }
    }
  }

  lemma ZeroName(a: Text)
    ensures PieceName(a, 0) != [98, 42] && PieceName(a, 0) + [STAR] != [98, 42]
  {
    assert Decimal(0) == [48];
    var k := PieceName(a, 0);
    assert k[|k| - 1] == 48 && |k + [STAR]| > 2;
  }

  lemma SampleSays(u: Unicode, v: Text)
    ensures Says(u, SAMPLE, v) <==> v == [99]
  {
    hide Says, Decode2231;
    SaysIff(u, SAMPLE, v);
    Decode2231OfEncoded(u, [99]);
    assert PercentEncoded([99]) == EncodeByte(99) + PercentEncoded([]) == [99];
    assert UTF8_PREFIX + [99] == SAMPLE;
  }
}
