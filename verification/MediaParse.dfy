/** ParseMediaType of package mime (go/src/mime/mediatype.go), and exactly when it undoes
    FormatMediaType. */
module MediaParse {
  import opened Common
  import opened MediaType

  type Params = map<Text, Text>

  datatype ParseError =
    NoMediaType | ExpectedSlash | ExpectedToken | UnexpectedContent | InvalidParameter | DuplicateName

  /** The three results; params is None for a nil map. */
  datatype ParseResult = ParseResult(mediatype: Text, params: Option<Params>, err: Option<ParseError>)

  /** Line 104: checkMediaTypeDisposition */
  function CheckDisposition(s: Text): Option<ParseError> {
    var t := ConsumeToken(s);
    if t.0 == [] then Some(NoMediaType)
    else if t.1 == [] then None
    else if t.1[0] != SLASH then Some(ExpectedSlash)
    else
      var sub := ConsumeToken(t.1[1..]);
      if sub.0 == [] then Some(ExpectedToken)
      else if sub.1 != [] then Some(UnexpectedContent)
      else None
  }

  // ----- collecting the parameters -----

  /** The parameters read so far: those without a star, and by base name those with one. */
  datatype Pieces = Pieces(plain: Params, starred: map<Text, Params>)

  datatype Outcome = Done(pieces: Pieces) | Trailing(plain: Params) | Invalid | Duplicate

  function PiecesOf(starred: map<Text, Params>, base: Text): Params {
    if base in starred then starred[base] else map[]
  }

  /** Lines 176-192, None for a name that is there already. */
  function Added(p: Pieces, key: Text, value: Text): Option<Pieces> {
    var idx := IndexByte(key, STAR);
    if idx == -1 then (if key in p.plain then None else Some(p.(plain := p.plain[key := value])))
    else
      var base := key[..idx];
      var pieces := PiecesOf(p.starred, base);
      if key in pieces then None else Some(p.(starred := p.starred[base := pieces[key := value]]))
  }

  /** Lines 160-194 */
  function Collect(u: Unicode, v: Text, p: Pieces): Outcome
    decreases |v|
  {
    var w := TrimLeft(u, v);
    if w == [] then Done(p)
    else
      var c := ConsumeMediaParam(u, w);
      if c.0 == [] then (if TrimSpace(u, c.2) == [SEMICOLON] then Trailing(p.plain) else Invalid)
      else
        match Added(p, c.0, c.1)
        case None => Duplicate
        case Some(q) =>
          ConsumeShrinks(u, w);
          Collect(u, c.2, q)
  }

  // ----- continuations -----

  /** Line 240: decode2231Enc, None for false. */
  function Decode2231(u: Unicode, v: Text): Option<Text> {
    var first := IndexByte(v, APOSTROPHE);
    if first == -1 then None
    else
      var second := IndexByte(v[first + 1..], APOSTROPHE);
      if second == -1 then None
      else
        var charset := ToLower(u, v[..first]);
        if charset != US_ASCII && charset != CHARSET then None
        else Unescaped(v[first + 1..][second + 1..])
  }

  function Decimal(n: nat): (s: Text)
    ensures s != [] && 48 <= s[|s| - 1] < 58
  {
    if n < 10 then [48 + n] else Decimal(n / 10) + [48 + n % 10]
  }

  lemma {:induction false} DecimalInjective(a: nat, b: nat)
    requires Decimal(a) == Decimal(b)
    ensures a == b
    decreases a
  {
    var s := Decimal(a);
    assert a % 10 == b % 10 by {
      LastDigit(a);
      LastDigit(b);
    }
    DecimalLength(a);
    DecimalLength(b);
    if a >= 10 {
      assert Decimal(a / 10) == s[..|s| - 1] == Decimal(b / 10);
      DecimalInjective(a / 10, b / 10);
    }
  }

  lemma DecimalLength(n: nat)
    ensures n < 10 <==> |Decimal(n)| == 1
  {
  }

  lemma LastDigit(n: nat)
    ensures Decimal(n)[|Decimal(n)| - 1] == 48 + n % 10
  {
  }

  /** Line 211: the name of the n-th piece. */
  function PieceName(base: Text, n: nat): Text { base + [STAR] + Decimal(n) }

  predicate HasPiece(base: Text, pieces: Params, n: nat) {
    PieceName(base, n) in pieces || PieceName(base, n) + [STAR] in pieces
  }

  ghost predicate PieceFrom(base: Text, key: Text, n: nat) {
    exists k: nat :: n <= k && (key == PieceName(base, k) || key == PieceName(base, k) + [STAR])
  }

  /** The names that piece n and later ones may have. */
  ghost function Later(base: Text, pieces: Params, n: nat): set<Text> {
    set key | key in pieces && PieceFrom(base, key, n)
  }

  lemma PieceNameInjective(base: Text, a: nat, b: nat)
    ensures PieceName(base, a) == PieceName(base, b) ==> a == b
    ensures PieceName(base, a) + [STAR] == PieceName(base, b) + [STAR] ==> a == b
    ensures PieceName(base, a) != PieceName(base, b) + [STAR]
  {
    var x, y := PieceName(base, a), PieceName(base, b);
    assert x[|x| - 1] == Decimal(a)[|Decimal(a)| - 1];
    assert (y + [STAR])[|y|] == STAR;
    assert x[|base| + 1..] == Decimal(a) && y[|base| + 1..] == Decimal(b);
    assert (x + [STAR])[..|x|] == x && (y + [STAR])[..|y|] == y;
    if Decimal(a) == Decimal(b) { DecimalInjective(a, b); }
    if x + [STAR] == y + [STAR] { assert |x| == |y| && x == y; }
  }

  /** No number names two pieces, so the loop over the pieces runs out of them. */
  lemma LaterShrinks(base: Text, pieces: Params, n: nat)
    requires HasPiece(base, pieces, n)
    ensures |Later(base, pieces, n + 1)| < |Later(base, pieces, n)|
  {
    var key := if PieceName(base, n) in pieces then PieceName(base, n) else PieceName(base, n) + [STAR];
    assert PieceFrom(base, key, n);
    if PieceFrom(base, key, n + 1) {
      var k: nat :| n + 1 <= k && (key == PieceName(base, k) || key == PieceName(base, k) + [STAR]);
      PieceNameInjective(base, k, n);
      PieceNameInjective(base, n, k);
    }
    forall x | x in Later(base, pieces, n + 1)
      ensures x in Later(base, pieces, n)
    {
      var k: nat :| n + 1 <= k && (x == PieceName(base, k) || x == PieceName(base, k) + [STAR]);
      assert PieceFrom(base, x, n);
    }
    ProperSubsetSize(Later(base, pieces, n + 1), Later(base, pieces, n), key);
  }

  lemma ProperSubsetSize(a: set<Text>, b: set<Text>, x: Text)
    requires a <= b && x in b && x !in a
    ensures |a| < |b|
  {
    SubsetSize(a, b - {x});
  }

  lemma {:induction false} SubsetSize(a: set<Text>, b: set<Text>)
    requires a <= b
    ensures |a| <= |b|
    decreases a
  {
    if a != {} {
      var x :| x in a;
      SubsetSize(a - {x}, b - {x});
    }
  }

  /** What a failed decoding leaves. */
  function OrEmpty(r: Option<Text>): Text { if r.None? then [] else r.value }

  /** Lines 212-230: what piece n contributes; a piece without a star comes first. */
  function Piece(u: Unicode, base: Text, pieces: Params, n: nat): Text
    requires HasPiece(base, pieces, n)
  {
    if PieceName(base, n) in pieces then pieces[PieceName(base, n)]
    else if n == 0 then OrEmpty(Decode2231(u, pieces[PieceName(base, n) + [STAR]]))
    else OrEmpty(Unescaped(pieces[PieceName(base, n) + [STAR]]))
  }

  /** Lines 210-231: the pieces from n on, up to the first number that has none. */
  function Joined(u: Unicode, base: Text, pieces: Params, n: nat): Text
    decreases |Later(base, pieces, n)|
  {
    if HasPiece(base, pieces, n) then
      LaterShrinks(base, pieces, n);
      Piece(u, base, pieces, n) + Joined(u, base, pieces, n + 1)
    else []
  }

  /** Lines 200-234: what is stored under the base name, None for nothing. */
  function Stitch(u: Unicode, base: Text, pieces: Params): Option<Text> {
    if base + [STAR] in pieces then Decode2231(u, pieces[base + [STAR]])
    else if HasPiece(base, pieces, 0) then Some(Joined(u, base, pieces, 0))
    else None
  }

  function Stitched(u: Unicode, starred: map<Text, Params>): Params {
    map base | base in starred && Stitch(u, base, starred[base]).Some? :: Stitch(u, base, starred[base]).value
  }

  /** The type lines 141-145 find. */
  function TypePart(v: Text): (r: (Text, Text))
    ensures r.0 + r.1 == v
  {
    var i := IndexByte(v, SEMICOLON);
    if i == -1 then (v, []) else (v[..i], v[i..])
  }

  /** What ParseMediaType returns. */
  function Parsed(u: Unicode, v: Text): ParseResult {
    var mediatype := TrimSpace(u, ToLower(u, TypePart(v).0));
    var bad := CheckDisposition(mediatype);
    if bad.Some? then ParseResult([], None, bad)
    else
      match Collect(u, TypePart(v).1, Pieces(map[], map[]))
      case Invalid => ParseResult(mediatype, None, Some(InvalidParameter))
      case Duplicate => ParseResult([], None, Some(DuplicateName))
      case Trailing(plain) => ParseResult(mediatype, Some(plain), None)
      case Done(p) => ParseResult(mediatype, Some(p.plain + Stitched(u, p.starred)), None)
  }

  // ----- the loops of ParseMediaType -----

  /** Lines 200-234 for one base name. */
  method StitchPieces(u: Unicode, key: Text, pieceMap: Params) returns (r: Option<Text>)
    ensures r == Stitch(u, key, pieceMap)
  {
    hide Decode2231, Unescaped, Later, PieceName;
    var singlePartKey := key + [STAR];
    if singlePartKey in pieceMap {
      return Decode2231(u, pieceMap[singlePartKey]);
    }
    var buf: Text := [];
    var valid := false;
    var n := 0;
    while true
      invariant 0 <= n && (valid <==> n > 0) && (valid ==> HasPiece(key, pieceMap, 0))
      invariant Joined(u, key, pieceMap, 0) == buf + Joined(u, key, pieceMap, n)
      decreases |Later(key, pieceMap, n)|
    {
      if HasPiece(key, pieceMap, n) {
        LaterShrinks(key, pieceMap, n);
        Assoc(buf, Piece(u, key, pieceMap, n), Joined(u, key, pieceMap, n + 1));
      }
      var simplePart := PieceName(key, n);
      if simplePart in pieceMap {
        valid := true;
        buf := buf + pieceMap[simplePart];
        n := n + 1;
        continue;
      }
      var encodedPart := simplePart + [STAR];
      if encodedPart !in pieceMap {
        break;
      }
      valid := true;
      var v := pieceMap[encodedPart];
      if n == 0 {
        var decv := Decode2231(u, v);
        if decv.Some? {
          buf := buf + decv.value;
        }
      } else {
        var decv := PercentHexUnescape(v);
        buf := buf + OrEmpty(decv);
      }
      n := n + 1;
    }
    assert buf + [] == buf;
    r := if valid then Some(buf) else None;
  }

  /** Lines 199-235, in whatever order the map yields its keys. */
  method StitchAll(u: Unicode, params: Params, continuation: map<Text, Params>) returns (r: Params)
    ensures r == params + Stitched(u, continuation)
  {
    hide Stitch;
    r := params;
    var left := continuation.Keys;
    while left != {}
      invariant left <= continuation.Keys
      invariant forall k :: k in r <==> k in params || (k in continuation && k !in left && Stitch(u, k, continuation[k]).Some?)
      invariant forall k | k in r && k in continuation && k !in left && Stitch(u, k, continuation[k]).Some? ::
          r[k] == Stitch(u, k, continuation[k]).value
      invariant forall k | k in params && (k in continuation && k !in left ==> Stitch(u, k, continuation[k]).None?) ::
          r[k] == params[k]
      decreases left
    {
      var key :| key in left;
      left := left - {key};
      var joined := StitchPieces(u, key, continuation[key]);
      if joined.Some? {
        r := r[key := joined.value];
      }
    }
  }

  /** Lines 176-192 */
  method AddPiece(params0: Params, continuation0: map<Text, Params>, key: Text, value: Text)
    returns (params: Params, continuation: map<Text, Params>, ok: bool)
    ensures Added(Pieces(params0, continuation0), key, value) == if ok then Some(Pieces(params, continuation)) else None
  {
    hide IndexByte;
    params, continuation, ok := params0, continuation0, true;
    var idx := IndexByte(key, STAR);
    if idx != -1 {
      var baseName := key[..idx];
      if baseName !in continuation {
        continuation := continuation[baseName := map[]];
      }
      if key in continuation[baseName] {
        return params, continuation, false;
      }
      continuation := continuation[baseName := continuation[baseName][key := value]];
      assert continuation == continuation0[baseName := PiecesOf(continuation0, baseName)[key := value]];
    } else {
      if key in params {
        return params, continuation, false;
      }
      params := params[key := value];
    }
  }

  /** Line 140: ParseMediaType */
  method ParseMediaType(u: Unicode, text: Text) returns (r: ParseResult)
    ensures r == Parsed(u, text)
  {
    hide ConsumeMediaParam, CheckDisposition, Stitched;
    var i := IndexByte(text, SEMICOLON);
    if i == -1 {
      i := |text|;
    }
    assert (text[..i], text[i..]) == TypePart(text);
    var mediatype := TrimSpace(u, ToLower(u, text[..i]));
    var err := CheckDisposition(mediatype);
    if err.Some? {
      return ParseResult([], None, err);
    }
    var params: Params := map[];
    var continuation: map<Text, Params> := map[];
    var v := text[i..];
    while |v| > 0
      invariant Collect(u, text[i..], Pieces(map[], map[])) == Collect(u, v, Pieces(params, continuation))
      decreases |v|
    {
      hide TrimLeft, TrimSpace, IndexByte, TypePart, ToLower, Added;
      v := TrimLeft(u, v);
      if |v| == 0 {
        break;
      }
      var c := ConsumeMediaParam(u, v);
      var key, value, rest := c.0, c.1, c.2;
      if key == [] {
        if TrimSpace(u, rest) == [SEMICOLON] {
          return ParseResult(mediatype, Some(params), None);
        }
        return ParseResult(mediatype, None, Some(InvalidParameter));
      }
      ConsumeShrinks(u, v);
      var isNew: bool;
      params, continuation, isNew := AddPiece(params, continuation, key, value);
      if !isNew {
        return ParseResult([], None, Some(DuplicateName));
      }
      v := rest;
    }
    assert TrimLeft(u, []) == [];
    params := StitchAll(u, params, continuation);
    return ParseResult(mediatype, Some(params), None);
  }

  // ----- the names that can come out of parsing -----

  /** In lower case and without a star. */
  predicate LowerNoStar(name: Text) { LowerAscii(name) == name && STAR !in name }

  ghost predicate NamesPlain(p: Pieces) {
    (forall a | a in p.plain :: LowerNoStar(a)) && (forall a | a in p.starred :: LowerNoStar(a))
  }

  lemma LowerIdempotent(s: Text)
    ensures LowerAscii(LowerAscii(s)) == LowerAscii(s)
  {
    hide LowerAscii;
    assert forall k | 0 <= k < |s| :: LowerAscii(LowerAscii(s))[k] == LowerByte(LowerByte(s[k])) == LowerAscii(s)[k];
  }

  lemma LowerPrefix(s: Text, i: nat)
    requires i <= |s| && LowerAscii(s) == s
    ensures LowerAscii(s[..i]) == s[..i]
  {
    assert forall k | 0 <= k < i :: LowerAscii(s[..i])[k] == LowerByte(s[k]) == LowerAscii(s)[k] == s[k];
  }

  lemma {:induction false} TokenPrefix(v: Text)
    ensures AllToken(v[..TokenLen(v)])
    decreases v
  {
    if TokenLen(v) > 0 {
      TokenPrefix(v[1..]);
      assert v[..TokenLen(v)] == [v[0]] + v[1..][..TokenLen(v[1..])];
    }
  }

  lemma KeyIsLower(u: Unicode, v: Text)
    ensures LowerAscii(ConsumeMediaParam(u, v).0) == ConsumeMediaParam(u, v).0
  {
    hide TokenLen, IsTokenChar, ConsumedValue, TrimLeft;
    var r0 := TrimLeft(u, v);
    if r0 != [] && r0[0] == SEMICOLON {
      var w := TrimLeft(u, r0[1..]);
      TokenPrefix(w);
      TokenIsAscii(w[..TokenLen(w)]);
      LowerIdempotent(w[..TokenLen(w)]);
    }
  }

  lemma TokenIsAscii(s: Text)
    requires AllToken(s)
    ensures IsAscii(s)
  {
  }

  lemma AddedPlain(p: Pieces, key: Text, value: Text)
    requires NamesPlain(p) && LowerAscii(key) == key
    ensures Added(p, key, value).Some? ==> NamesPlain(Added(p, key, value).value)
  {
    hide LowerNoStar, IndexByte;
    var idx := IndexByte(key, STAR);
    BaseName(key);
  }

  lemma BaseName(key: Text)
    requires LowerAscii(key) == key
    ensures var idx := IndexByte(key, STAR); if idx == -1 then LowerNoStar(key) else LowerNoStar(key[..idx])
  {
    IndexByteSpec(key, STAR);
    var idx := IndexByte(key, STAR);
    if idx != -1 { LowerPrefix(key, idx); }
  }

  lemma {:induction false} CollectPlain(u: Unicode, v: Text, p: Pieces)
    requires NamesPlain(p)
    ensures Collect(u, v, p).Done? ==> NamesPlain(Collect(u, v, p).pieces)
    ensures Collect(u, v, p).Trailing? ==> forall a | a in Collect(u, v, p).plain :: LowerNoStar(a)
    decreases |v|
  {
    hide ConsumeMediaParam, Added, LowerNoStar, TrimSpace, TrimLeft;
    var w := TrimLeft(u, v);
    if w != [] {
      var c := ConsumeMediaParam(u, w);
      if c.0 != [] {
        KeyIsLower(u, w);
        AddedPlain(p, c.0, c.1);
        ConsumeShrinks(u, w);
        if Added(p, c.0, c.1).Some? { CollectPlain(u, c.2, Added(p, c.0, c.1).value); }
      }
    }
  }

  /** Whatever is parsed, every name in the result is in lower case and has no star. */
  lemma ParsedNames(u: Unicode, v: Text, a: Text)
    requires Parsed(u, v).params.Some? && a in Parsed(u, v).params.value
    ensures LowerNoStar(a)
  {
    hide Collect, LowerNoStar, CheckDisposition, Stitch, TrimSpace;
    CollectPlain(u, TypePart(v).1, Pieces(map[], map[]));
  }

  // ----- reading back what was written -----

  lemma {:induction false} NoTrimRight(u: Unicode, s: Text)
    requires s == [] || (s[|s| - 1] < 0x80 && !IsSpaceByte(s[|s| - 1]))
    ensures TrimRight(u, s) == s
  {
  }

  lemma LowerToken(s: Text)
    requires IsToken(s)
    ensures IsToken(LowerAscii(s))
  {
    var r := LowerAscii(s);
    assert forall k | 0 <= k < |s| :: r[k] == LowerByte(s[k]) && IsTokenChar(s[k]);
  }

  lemma LowerConcat(a: Text, b: Text)
    ensures LowerAscii(a + b) == LowerAscii(a) + LowerAscii(b)
  {
    assert |LowerAscii(a + b)| == |LowerAscii(a) + LowerAscii(b)|;
    assert forall k | 0 <= k < |a + b| :: LowerAscii(a + b)[k] == LowerByte((a + b)[k]) == (LowerAscii(a) + LowerAscii(b))[k];
  }

  lemma LowerType(t: Text)
    requires TypeText(t).Some?
    ensures TypeText(t).value == LowerAscii(t)
  {
    hide LowerAscii, IsToken;
    var slash := IndexByte(t, SLASH);
    if slash >= 0 {
      IndexByteSpec(t, SLASH);
      var major, sub := t[..slash], t[slash + 1..];
      assert t == (major + [SLASH]) + sub;
      LowerConcat(major + [SLASH], sub);
      LowerConcat(major, [SLASH]);
      LowerSlash();
    }
  }

  lemma LowerSlash()
    ensures LowerAscii([SLASH]) == [SLASH]
  {
  }

  lemma TypeAccepted(t: Text)
    requires TypeText(t).Some?
    ensures CheckDisposition(TypeText(t).value) == None
  {
    hide LowerAscii, TokenLen, IsToken;
    var slash := IndexByte(t, SLASH);
    var head := TypeText(t).value;
    if slash < 0 {
      TokenAlone(t);
    } else {
      var major, sub := LowerAscii(t[..slash]), LowerAscii(t[slash + 1..]);
      var rest := [SLASH] + sub;
      assert head == major + rest;
      LowerToken(t[..slash]);
      TokenNonempty(major);
      TokenLenOf(major, rest);
      TokenAlone(t[slash + 1..]);
      assert rest[1..] == sub;
    }
  }

  lemma TokenNonempty(s: Text)
    requires IsToken(s)
    ensures s != [] && AllToken(s)
  {
  }

  lemma TokenAlone(s: Text)
    requires IsToken(s)
    ensures ConsumeToken(LowerAscii(s)) == (LowerAscii(s), []) && LowerAscii(s) != []
  {
    hide LowerAscii;
    var r := LowerAscii(s);
    LowerToken(s);
    TokenLenOf(r, []);
    assert r + [] == r;
  }

  /** A written type is in lower case, valid, and not trimmed. */
  lemma TypeReadBack(u: Unicode, t: Text)
    requires TypeText(t).Some?
    ensures TypeText(t).value == LowerAscii(t)
    ensures var head := TypeText(t).value;
      && TrimSpace(u, ToLower(u, head)) == head && SEMICOLON !in head
      && CheckDisposition(head) == None
  {
    hide TypeText, LowerAscii, CheckDisposition, TrimLeft, TrimRight, IsSpaceByte;
    var head := TypeText(t).value;
    LowerType(t);
    TypeAccepted(t);
    TypeCharacters(t);
    LowerIdempotent(t);
    NoTrim(u, head);
    NoTrimRight(u, head);
  }

  /** The characters of a written type are token characters or slashes. */
  lemma TypeCharacters(t: Text)
    requires TypeText(t).Some?
    ensures var head := TypeText(t).value;
      head != [] && IsAscii(head) && SEMICOLON !in head && forall k | 0 <= k < |head| :: !IsSpaceByte(head[k])
  {
    var slash := IndexByte(t, SLASH);
    if slash < 0 {
      LowerToken(t);
    } else {
      LowerToken(t[..slash]);
      LowerToken(t[slash + 1..]);
    }
  }

  /** decode2231Enc undoes the encoded form of every byte string. */
  lemma Decode2231OfEncoded(u: Unicode, value: Text)
    ensures Decode2231(u, UTF8_PREFIX + PercentEncoded(value)) == Some(value)
  {
    hide PercentEncoded, Unescaped;
    var v := UTF8_PREFIX + PercentEncoded(value);
    UnescapedOfEncoded(value);
    IndexByteUnique(v, APOSTROPHE, 5);
    assert v[6..][0] == APOSTROPHE;
    IndexByteUnique(v[6..], APOSTROPHE, 0);
    assert v[..5] == CHARSET && LowerAscii(CHARSET) == CHARSET;
    assert v[6..][1..] == PercentEncoded(value);
  }

  ghost predicate PlainNames(attrs: seq<Text>) { forall k | 0 <= k < |attrs| :: PlainName(attrs[k]) }

  function PlainOf(attrs: seq<Text>, params: Params): Params
    requires forall a | a in attrs :: a in params
  {
    map a | a in attrs && !NeedsEncoding(params[a]) :: params[a]
  }

  function StarredOf(attrs: seq<Text>, params: Params): map<Text, Params>
    requires forall a | a in attrs :: a in params
  {
    map a | a in attrs && NeedsEncoding(params[a]) :: map[a + [STAR] := ValueText(params[a])]
  }

  /** The pieces with the parameter a added. */
  function With(p: Pieces, a: Text, value: Text): Pieces {
    if NeedsEncoding(value) then p.(starred := p.starred[a := map[a + [STAR] := ValueText(value)]])
    else p.(plain := p.plain[a := value])
  }

  lemma AddedReadBack(p: Pieces, a: Text, value: Text)
    requires PlainName(a) && a !in p.plain && a !in p.starred
    ensures Added(p, ReadName(a, value), ReadValue(value)) == Some(With(p, a, value))
  {
    hide NeedsEncoding, ValueText;
    if NeedsEncoding(value) {
      IndexByteUnique(a + [STAR], STAR, |a|);
      assert (a + [STAR])[..|a|] == a;
    } else {
      IndexByteSpec(a, STAR);
    }
  }

  /** The written parameters are collected one for one. */
  lemma {:induction false} CollectReadBack(u: Unicode, attrs: seq<Text>, params: Params, p: Pieces)
    requires (forall a | a in attrs :: a in params) && PlainNames(attrs) && Distinct(attrs)
    requires forall a | a in attrs :: a !in p.plain && a !in p.starred
    ensures ParamsText(attrs, params).Some? && EndsParam(ParamsText(attrs, params).value)
    ensures Collect(u, ParamsText(attrs, params).value, p)
      == Done(Pieces(p.plain + PlainOf(attrs, params), p.starred + StarredOf(attrs, params)))
    decreases attrs
  {
    hide NameText, ValueText, NeedsEncoding, ConsumeMediaParam, Added, PlainName, ReadName, ReadValue;
    if attrs == [] {
      assert p.plain + PlainOf(attrs, params) == p.plain && p.starred + StarredOf(attrs, params) == p.starred;
    } else {
      var a, rest := attrs[0], attrs[1..];
      var value := params[a];
      assert attrs == [a] + rest;
      AddedReadBack(p, a, value);
      CollectReadBack(u, rest, params, With(p, a, value));
      var tail := ParamsText(rest, params).value;
      var w := NameText(a, value) + ValueText(value) + tail;
      assert ParamsText(attrs, params) == Some(w) by { PlainIsToken(a); }
      NameStarts(a, value);
      NoTrim(u, w);
      ParamReadBack(u, a, value, tail);
      ReadNameNonempty(a, value);
      WithRest(attrs, params, p);
    }
  }

  lemma PlainIsToken(a: Text)
    requires PlainName(a)
    ensures IsToken(a)
  {
  }

  lemma ReadNameNonempty(a: Text, value: Text)
    requires PlainName(a)
    ensures ReadName(a, value) != []
  {
  }

  lemma NameStarts(a: Text, value: Text)
    ensures |NameText(a, value)| > 0 && NameText(a, value)[0] == SEMICOLON
  {
  }

  lemma PlainRest(attrs: seq<Text>, params: Params)
    requires attrs != [] && (forall a | a in attrs :: a in params) && Distinct(attrs)
    ensures var a, rest := attrs[0], PlainOf(attrs[1..], params);
      a !in rest && PlainOf(attrs, params) == if NeedsEncoding(params[a]) then rest else rest[a := params[a]]
  {
    hide NeedsEncoding;
    var a, rest := attrs[0], attrs[1..];
    assert attrs == [a] + rest && a !in rest;
    assert forall x :: x in attrs <==> x == a || x in rest;
  }

  lemma StarredRest(attrs: seq<Text>, params: Params)
    requires attrs != [] && (forall a | a in attrs :: a in params) && Distinct(attrs)
    ensures var a, rest := attrs[0], StarredOf(attrs[1..], params);
      a !in rest && StarredOf(attrs, params)
        == if NeedsEncoding(params[a]) then rest[a := map[a + [STAR] := ValueText(params[a])]] else rest
  {
    hide NeedsEncoding, ValueText;
    var a, rest := attrs[0], attrs[1..];
    assert attrs == [a] + rest && a !in rest;
    assert forall x :: x in attrs <==> x == a || x in rest;
  }

  lemma UpdateMoves<V>(m: map<Text, V>, a: Text, v: V, r: map<Text, V>)
    requires a !in r
    ensures m[a := v] + r == m + r[a := v]
  {
  }

  lemma WithRest(attrs: seq<Text>, params: Params, p: Pieces)
    requires attrs != [] && (forall a | a in attrs :: a in params) && Distinct(attrs)
    ensures var a, rest := attrs[0], attrs[1..];
      var q := With(p, a, params[a]);
      && q.plain + PlainOf(rest, params) == p.plain + PlainOf(attrs, params)
      && q.starred + StarredOf(rest, params) == p.starred + StarredOf(attrs, params)
  {
    hide ValueText, NeedsEncoding, PlainOf, StarredOf;
    var a, rest := attrs[0], attrs[1..];
    PlainRest(attrs, params);
    StarredRest(attrs, params);
    UpdateMoves(p.plain, a, params[a], PlainOf(rest, params));
    UpdateMoves(p.starred, a, map[a + [STAR] := ValueText(params[a])], StarredOf(rest, params));
  }

  /** Line 140 on what line 20 returns: the type in lower case and the same parameters,
      whatever their values and in whatever order they were written. */
  lemma ReadBack(u: Unicode, t: Text, attrs: seq<Text>, params: Params)
    requires ValidType(t) && Distinct(attrs) && PlainNames(attrs)
    requires forall a :: a in attrs <==> a in params
    ensures Parsed(u, Formatted(t, attrs, params)) == ParseResult(LowerAscii(t), Some(params), None)
  {
    TypeTextValid(t);
    hide ValidType, TypeText, ParamsText, Collect, ValueText, NeedsEncoding, PlainName, CheckDisposition, Stitched;
    var head := TypeText(t).value;
    TypeReadBack(u, t);
    CollectReadBack(u, attrs, params, Pieces(map[], map[]));
    var tail := ParamsText(attrs, params).value;
    SplitAtSemicolon(head, tail);
    StitchedReadBack(u, attrs, params);
  }

  lemma SplitAtSemicolon(head: Text, tail: Text)
    requires SEMICOLON !in head && EndsParam(tail)
    ensures TypePart(head + tail) == (head, tail)
  {
    if tail == [] {
      IndexByteSpec(head, SEMICOLON);
      assert head + tail == head;
    } else {
      IndexByteUnique(head + tail, SEMICOLON, |head|);
    }
  }

  lemma StitchedReadBack(u: Unicode, attrs: seq<Text>, params: Params)
    requires forall a :: a in attrs <==> a in params
    ensures map[] + PlainOf(attrs, params) + Stitched(u, map[] + StarredOf(attrs, params)) == params
  {
    hide NeedsEncoding, Decode2231, HasPiece, Joined, ValueText;
    var starred := map[] + StarredOf(attrs, params);
    forall a | a in starred
      ensures Stitch(u, a, starred[a]) == Some(params[a])
    {
      EncodedValue(params[a]);
      Decode2231OfEncoded(u, params[a]);
    }
  }

  lemma EncodedValue(value: Text)
    requires NeedsEncoding(value)
    ensures ValueText(value) == UTF8_PREFIX + PercentEncoded(value)
  {
  }

  lemma NothingParsed(u: Unicode)
    ensures Parsed(u, []).err == Some(NoMediaType)
  {
  }

  lemma InvalidNames(attrs: seq<Text>, params: Params)
    requires forall a | a in attrs :: a in params
    ensures ParamsText(attrs, params).Some? ==> AllTokens(attrs)
  {
    hide IsToken, NameText, ValueText;
    if k :| 0 <= k < |attrs| && !IsToken(attrs[k]) { InvalidName(attrs, params, k); }
  }

  /** Parsing undoes formatting exactly when the type is valid and every name is a token
      in lower case without a star. Only the names and the type are restricted, never the
      values. */
  lemma RoundTrip(u: Unicode, t: Text, attrs: seq<Text>, params: Params)
    requires Distinct(attrs) && forall a :: a in attrs <==> a in params
    ensures Parsed(u, Formatted(t, attrs, params)) == ParseResult(LowerAscii(t), Some(params), None)
      <==> ValidType(t) && forall a | a in params :: PlainName(a)
  {
    hide TypeText, ParamsText, Parsed, IsToken, ValidType;
    TypeTextValid(t);
    if TypeText(t).Some? && ParamsText(attrs, params).Some? {
      InvalidNames(attrs, params);
      if forall a | a in params :: PlainName(a) {
        assert forall k | 0 <= k < |attrs| :: attrs[k] in params;
        ReadBack(u, t, attrs, params);
      } else {
        var a :| a in params && !PlainName(a);
        var k :| 0 <= k < |attrs| && attrs[k] == a;
        var r := Parsed(u, Formatted(t, attrs, params));
        if r == ParseResult(LowerAscii(t), Some(params), None) { ParsedNames(u, Formatted(t, attrs, params), a); }
      }
    } else {
      NothingParsed(u);
      if TypeText(t).Some? && forall a | a in params :: PlainName(a) {
        assert forall k | 0 <= k < |attrs| :: attrs[k] in params;
        CollectReadBack(u, attrs, params, Pieces(map[], map[]));
      }
    }
  }

  // ----- names that are not in lower case -----

  function LowerAll(attrs: seq<Text>): (r: seq<Text>)
    ensures |r| == |attrs| && forall k | 0 <= k < |attrs| :: r[k] == LowerAscii(attrs[k])
  {
    if attrs == [] then [] else [LowerAscii(attrs[0])] + LowerAll(attrs[1..])
  }

  /** The parameters under their names in lower case. */
  function Lowered(attrs: seq<Text>, params: Params): (r: Params)
    requires forall a | a in attrs :: a in params
    ensures forall b :: b in r <==> b in LowerAll(attrs)
  {
    if attrs == [] then map[]
    else
      assert attrs == [attrs[0]] + attrs[1..];
      Lowered(attrs[1..], params)[LowerAscii(attrs[0]) := params[attrs[0]]]
  }

  lemma LoweredToken(a: Text)
    ensures IsToken(LowerAscii(a)) <==> IsToken(a)
  {
    var r := LowerAscii(a);
    assert forall k | 0 <= k < |a| :: r[k] == LowerByte(a[k]) && (IsTokenChar(r[k]) <==> IsTokenChar(a[k]));
  }

  lemma {:induction false} FormatAgrees(attrs: seq<Text>, p: Params, q: Params)
    requires forall a | a in attrs :: a in p
    requires forall b | b in LowerAll(attrs) :: b in q
    requires forall k | 0 <= k < |attrs| :: q[LowerAll(attrs)[k]] == p[attrs[k]]
    ensures ParamsText(LowerAll(attrs), q) == ParamsText(attrs, p)
    decreases attrs
  {
    hide NeedsEncoding, ValueText, IsToken, LowerAscii;
    if attrs != [] {
      LoweredToken(attrs[0]);
      LowerIdempotent(attrs[0]);
      assert LowerAll(attrs)[1..] == LowerAll(attrs[1..]);
      FormatAgrees(attrs[1..], p, q);
    }
  }

  lemma {:induction false} LoweredAt(attrs: seq<Text>, params: Params, k: nat)
    requires (forall a | a in attrs :: a in params) && k < |attrs| && Distinct(LowerAll(attrs))
    ensures Lowered(attrs, params)[LowerAscii(attrs[k])] == params[attrs[k]]
    decreases k
  {
    var low := LowerAll(attrs);
    if k > 0 {
      assert low[0] != low[k];
      assert LowerAll(attrs[1..]) == low[1..];
      LoweredAt(attrs[1..], params, k - 1);
    }
  }

  /** Names are written in lower case: as long as that keeps them apart, they come back
      so, with their values. */
  lemma RoundTripLowered(u: Unicode, t: Text, attrs: seq<Text>, params: Params)
    requires ValidType(t) && forall a :: a in attrs <==> a in params
    requires Distinct(LowerAll(attrs)) && forall a | a in params :: IsToken(a) && STAR !in LowerAscii(a)
    ensures Parsed(u, Formatted(t, attrs, params)) == ParseResult(LowerAscii(t), Some(Lowered(attrs, params)), None)
  {
    hide TypeText, ParamsText, Parsed, IsToken, LowerAscii, ValidType;
    var low, q := LowerAll(attrs), Lowered(attrs, params);
    forall k | 0 <= k < |attrs|
      ensures low[k] in q && q[low[k]] == params[attrs[k]] && PlainName(low[k])
    {
      LoweredAt(attrs, params, k);
      LowerIdempotent(attrs[k]);
      LoweredToken(attrs[k]);
      assert attrs[k] in params && low[k] in low;
    }
    FormatAgrees(attrs, params, q);
    ReadBack(u, t, low, q);
  }
}
