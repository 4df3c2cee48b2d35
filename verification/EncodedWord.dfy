/** RFC 2047 encoded words of package mime, Q encoding: splitting a header into words and
    putting it together again. */
module EncodedWord {
  import opened Common
  import opened Utf8
  import B64 = Base64
  import MT = MediaType

  type Text = seq<Byte>

  const SPACE: Byte := 32
  const EQUALS: Byte := 61      // =
  const QUESTION: Byte := 63    // ?
  const UNDERSCORE: Byte := 95  // _

  /** Line 76: 75 - len("=?UTF-8?q?") - len("?=") */
  const MAX_WORD: nat := 75
  const MAX_CONTENT: nat := 63

  // ----- Q encoding of bytes -----

  /** Line 127: written as one byte. A space becomes an underscore. */
  predicate IsPlain(b: Byte) { 32 <= b <= 126 && b != EQUALS && b != QUESTION && b != UNDERSCORE }

  function QByte(b: Byte): (r: Text)
    ensures |r| == if IsPlain(b) then 1 else 3
  {
    if b == SPACE then [UNDERSCORE]
    else if IsPlain(b) then [b]
    else [EQUALS, MT.UpperHex(b / 16), MT.UpperHex(b % 16)]
  }

  function QEncoded(s: Text): Text { if s == [] then [] else QByte(s[0]) + QEncoded(s[1..]) }

  lemma {:induction false} QConcat(a: Text, b: Text)
    ensures QEncoded(a + b) == QEncoded(a) + QEncoded(b)
    decreases a
  {
    if a == [] {
      assert a + b == b;
    } else {
      assert (a + b)[1..] == a[1..] + b;
      QConcat(a[1..], b);
    }
  }

  function QLen(s: Text): nat { if s == [] then 0 else (if IsPlain(s[0]) then 1 else 3) + QLen(s[1..]) }

  lemma {:induction false} QLenIs(s: Text)
    ensures |QEncoded(s)| == QLen(s)
    decreases s
  {
    if s != [] { QLenIs(s[1..]); }
  }

  lemma QSnoc(s: Text, i: nat)
    requires i < |s|
    ensures QEncoded(s[..i + 1]) == QEncoded(s[..i]) + QByte(s[i])
  {
    assert s[..i + 1] == s[..i] + [s[i]];
    QConcat(s[..i], [s[i]]);
    assert QEncoded([s[i]]) == QByte(s[i]) + [];
  }

  lemma QByteIs(b: Byte)
    ensures QByte(b) == if b == SPACE then [UNDERSCORE] else if IsPlain(b) then [b]
      else [EQUALS] + [MT.UpperHex(b / 16)] + [MT.UpperHex(b % 16)]
  {
  }

  lemma ThreeBytes(buf: Text, x: Byte, y: Byte, z: Byte)
    ensures buf + [x] + [y] + [z] == buf + ([x] + [y] + [z])
  {
  }

  /** Line 144: writeQString */
  method WriteQString(buf0: Text, s: Text) returns (buf: Text)
    ensures buf == buf0 + QEncoded(s)
  {
    buf := buf0;
    for i := 0 to |s|
      invariant buf == buf0 + QEncoded(s[..i])
    {
      hide QEncoded, QByte, MT.UpperHex;
      var b := s[i];
      QSnoc(s, i);
      QByteIs(b);
      Assoc(buf0, QEncoded(s[..i]), QByte(b));
      ThreeBytes(buf, EQUALS, MT.UpperHex(b / 16), MT.UpperHex(b % 16));
      if b == 32 {
        buf := buf + [UNDERSCORE];
      } else if 33 <= b <= 126 && b != EQUALS && b != QUESTION && b != UNDERSCORE {
        buf := buf + [b];
      } else {
        buf := buf + [EQUALS];
        buf := buf + [MT.UpperHex(b / 16)];
        buf := buf + [MT.UpperHex(b % 16)];
      }
    }
    assert s[..|s|] == s;
  }

  // ----- decoding -----

  /** Lines 379-389: the bytes besides underscores and escapes. */
  predicate IsAccepted(c: Byte) { 32 <= c <= 126 || c == 10 || c == 13 || c == 9 }

  /** What qDecode returns, None for its error. */
  function QDecoded(s: Text): Option<Text> {
    if s == [] then Some([])
    else if s[0] == UNDERSCORE then MT.PrependTo([SPACE], QDecoded(s[1..]))
    else if s[0] == EQUALS then
      if |s| < 3 || !MT.IsHex(s[1]) || !MT.IsHex(s[2]) then None
      else MT.PrependTo([MT.Unhex(s[1]) * 16 + MT.Unhex(s[2])], QDecoded(s[3..]))
    else if IsAccepted(s[0]) then MT.PrependTo([s[0]], QDecoded(s[1..]))
    else None
  }

  lemma QDecodedStep(s: Text, i: nat)
    requires i < |s|
    ensures QDecoded(s[i..]) ==
      if s[i] == UNDERSCORE then MT.PrependTo([SPACE], QDecoded(s[i + 1..]))
      else if s[i] == EQUALS then
        if i + 2 >= |s| || !MT.IsHex(s[i + 1]) || !MT.IsHex(s[i + 2]) then None
        else MT.PrependTo([MT.Unhex(s[i + 1]) * 16 + MT.Unhex(s[i + 2])], QDecoded(s[i + 3..]))
      else if IsAccepted(s[i]) then MT.PrependTo([s[i]], QDecoded(s[i + 1..]))
      else None
  {
    hide MT.IsHex, MT.Unhex;
    var w := s[i..];
    assert w[1..] == s[i + 1..];
    if i + 2 < |s| { assert w[3..] == s[i + 3..]; }
  }

  /** Line 372: qDecode fills an array from the front. */
  method QDecode(s: Text) returns (r: Option<Text>)
    ensures r == QDecoded(s)
  {
    var dec := new Byte[|s|];
    var n, i := 0, 0;
    assert s[0..] == s && dec[..0] == [];
    MT.NothingPrepended(QDecoded(s));
    while i < |s|
      invariant 0 <= n <= i <= |s| && dec.Length == |s|
      invariant QDecoded(s) == MT.PrependTo(dec[..n], QDecoded(s[i..]))
    {
      hide MT.IsHex, MT.Unhex, QDecoded;
      QDecodedStep(s, i);
      var c := s[i];
      ghost var front := dec[..n];
      if c == UNDERSCORE {
        dec[n] := SPACE;
      } else if c == EQUALS {
        if i + 2 >= |s| {
          return None;
        }
        if !MT.IsHex(s[i + 1]) || !MT.IsHex(s[i + 2]) {
          return None;
        }
        dec[n] := MT.Unhex(s[i + 1]) * 16 + MT.Unhex(s[i + 2]);
        i := i + 2;
      } else if IsAccepted(c) {
        dec[n] := c;
      } else {
        return None;
      }
      n := n + 1;
      i := i + 1;
      assert dec[..n] == front + [dec[n - 1]];
      MT.PrependToTwice(front, [dec[n - 1]], QDecoded(s[i..]));
    }
    assert dec[..n] + [] == dec[..n];
    return Some(dec[..n]);
  }

  /** Decoding undoes encoding, for every byte string. */
  lemma {:induction false} QDecodedOfEncoded(s: Text)
    ensures QDecoded(QEncoded(s)) == Some(s)
    decreases s
  {
    if s != [] {
      var b, e := s[0], QEncoded(s);
      QDecodedOfEncoded(s[1..]);
      assert s == [b] + s[1..];
      if IsPlain(b) {
        assert e[1..] == QEncoded(s[1..]);
      } else {
        MT.HexRoundTrip(b);
        assert e[3..] == QEncoded(s[1..]);
        assert e[0] == EQUALS && e[1] == MT.UpperHex(b / 16) && e[2] == MT.UpperHex(b % 16);
      }
    }
  }

  /** Encoded text has no question mark, so it cannot end its word early. */
  lemma {:induction false} NoQuestion(s: Text)
    ensures QUESTION !in QEncoded(s)
    decreases s
  {
    if s != [] {
      NoQuestion(s[1..]);
      assert QUESTION !in QByte(s[0]);
    }
  }

  // ----- splitting into words -----

  /** Lines 123-132: the length of the next piece, never part of a character. */
  function PieceLen(s: Text): (n: nat)
    requires s != []
    ensures 1 <= n <= |s|
  {
    if IsPlain(s[0]) then 1 else RuneLen(s)
  }

  /** ... and of its encoding. */
  function PieceCost(s: Text): nat
    requires s != []
  {
    if IsPlain(s[0]) then 1 else 3 * RuneLen(s)
  }

  lemma PieceCostIs(s: Text)
    requires s != []
    ensures QLen(s[..PieceLen(s)]) == PieceCost(s) <= 12
  {
    var p := s[..PieceLen(s)];
    assert p[0] == s[0];
    if |p| == 1 {
      assert p[1..] == [];
    } else {
      AllEscaped(p);
    }
  }

  lemma {:induction false} AllEscaped(p: Text)
    requires forall k | 0 <= k < |p| :: p[k] >= 0x80
    ensures QLen(p) == 3 * |p|
    decreases p
  {
    if p != [] { AllEscaped(p[1..]); }
  }

  /** The words of s after those already closed, word being the open one: a piece that
      does not fit any more starts the next word. */
  function Words(word: Text, s: Text): (ws: seq<Text>)
    ensures ws != []
    decreases |s|
  {
    if s == [] then [word]
    else
      var n := PieceLen(s);
      if QLen(word) + PieceCost(s) > MAX_CONTENT then [word] + Words(s[..n], s[n..])
      else Words(word + s[..n], s[n..])
  }

  lemma {:induction false} QLenConcat(a: Text, b: Text)
    ensures QLen(a + b) == QLen(a) + QLen(b)
  {
    QLenIs(a);
    QLenIs(b);
    QLenIs(a + b);
    QConcat(a, b);
  }

  /** No byte is lost, and no word is too long. */
  lemma {:induction false} WordsSplit(word: Text, s: Text)
    requires QLen(word) <= MAX_CONTENT
    ensures Flatten(Words(word, s)) == word + s
    ensures forall w | w in Words(word, s) :: |QEncoded(w)| <= MAX_CONTENT
    decreases |s|
  {
    hide QEncoded, QLen, PieceLen, PieceCost;
    if s == [] {
      QLenIs(word);
      assert Flatten([word]) == word + Flatten([]) == word + s;
    } else {
      var n := PieceLen(s);
      PieceCostIs(s);
      assert s == s[..n] + s[n..];
      if QLen(word) + PieceCost(s) > MAX_CONTENT {
        QLenIs(word);
        WordsSplit(s[..n], s[n..]);
        assert ([word] + Words(s[..n], s[n..]))[1..] == Words(s[..n], s[n..]);
      } else {
        QLenConcat(word, s[..n]);
        WordsSplit(word + s[..n], s[n..]);
        assert word + s[..n] + s[n..] == word + s;
      }
    }
  }

  /** If the text is valid UTF-8 so is every word: no character is split. */
  lemma {:induction false} WordsValid(word: Text, s: Text)
    requires Valid(word) && Valid(s)
    ensures forall w | w in Words(word, s) :: Valid(w)
    decreases |s|
  {
    hide QEncoded, QLen, PieceCost;
    if s != [] {
      var n := PieceLen(s);
      assert n == RuneLen(s);
      FirstRune(s);
      hide Valid, PieceLen;
      if QLen(word) + PieceCost(s) > MAX_CONTENT {
        WordsValid(s[..n], s[n..]);
      } else {
        ValidConcat(word, s[..n]);
        WordsValid(word + s[..n], s[n..]);
      }
    }
  }

  // ----- the encoded text -----

  const ENCODING: Byte := 113  // q

  function Open(charset: Text): Text { [EQUALS, QUESTION] + charset + [QUESTION, ENCODING, QUESTION] }

  const CLOSE: Text := [QUESTION, EQUALS]

  function WordText(charset: Text, w: Text): Text { Open(charset) + QEncoded(w) + CLOSE }

  /** The words, separated by spaces. */
  function HeaderText(charset: Text, ws: seq<Text>): Text
    requires ws != []
  {
    if |ws| == 1 then WordText(charset, ws[0]) else WordText(charset, ws[0]) + [SPACE] + HeaderText(charset, ws[1..])
  }

  /** Line 180: isUTF8. No character outside ASCII folds to one of "utf-8". */
  predicate IsUtf8(charset: Text) { MT.LowerAscii(charset) == MT.CHARSET }

  /** Words longer than 75 characters are never written. */
  lemma WordLength(charset: Text, s: Text, w: Text)
    requires IsUtf8(charset) && w in Words([], s)
    ensures |WordText(charset, w)| <= MAX_WORD
  {
    assert |charset| == |MT.LowerAscii(charset)| == 5;
    WordsSplit([], s);
  }

  /** The encoding of s, all in one word unless the charset is UTF-8. */
  function Encoded(charset: Text, s: Text): Text {
    if IsUtf8(charset) then HeaderText(charset, Words([], s)) else WordText(charset, s)
  }

  /** Line 174: splitWord */
  function SplitWord(charset: Text): Text { CLOSE + [SPACE] + Open(charset) }

  /** What is written while a word is open. */
  function OpenText(charset: Text, closed: seq<Text>, word: Text): Text {
    ClosedText(charset, closed) + Open(charset) + QEncoded(word)
  }

  /** Line 52: encodeWord, for the Q encoding. */
  method EncodeWord(charset: Text, s: Text) returns (buf: Text)
    ensures buf == Encoded(charset, s)
  {
    buf := Open(charset);
    buf := QEncode(buf, charset, s);
    buf := buf + CLOSE;
  }

  /** Line 114: qEncode, called inside an open word. */
  method QEncode(buf0: Text, charset: Text, s: Text) returns (buf: Text)
    requires buf0 == Open(charset)
    ensures buf + CLOSE == Encoded(charset, s)
  {
    buf := buf0;
    if !IsUtf8(charset) {
      buf := WriteQString(buf, s);
      return;
    }
    buf := QEncodeUtf8(buf, charset, s);
  }

  /** Lines 121-140 */
  method QEncodeUtf8(buf0: Text, charset: Text, s: Text) returns (buf: Text)
    requires buf0 == Open(charset)
    ensures buf + CLOSE == HeaderText(charset, Words([], s))
  {
    hide QEncoded, QLen, Words, HeaderText, Open, OpenText, PieceLen, PieceCost, RuneLen, UnderWay, SplitWord;
    buf := buf0;
    var currentLen, i := 0, 0;
    ghost var closed, word := [], [];
    FirstWord(charset, s);
    while i < |s|
      invariant 0 <= i <= |s|
      invariant UnderWay(charset, s, i, closed, word, currentLen, buf)
      decreases |s| - i
    {
      NextPiece(charset, s, i, closed, word, currentLen, buf);
      var runeLen, encLen := PieceSize(s[i..]);
      ghost var piece := s[i..i + runeLen];
      if currentLen + encLen > MAX_CONTENT {
        buf := buf + SplitWord(charset);
        currentLen := 0;
        closed, word := closed + [word], piece;
      } else {
        word := word + piece;
      }
      buf := WriteQString(buf, s[i..i + runeLen]);
      currentLen := currentLen + encLen;
      i := i + runeLen;
    }
    LastWord(charset, s, closed, word, currentLen, buf);
  }

  /** Lines 123-132 */
  method PieceSize(s: Text) returns (runeLen: nat, encLen: nat)
    requires s != []
    ensures runeLen == PieceLen(s) && encLen == PieceCost(s)
  {
    var b := s[0];
    if 32 <= b <= 126 && b != EQUALS && b != QUESTION && b != UNDERSCORE {
      return 1, 1;
    }
    runeLen := RuneLen(s);
    return runeLen, 3 * runeLen;
  }

  /** What the loop keeps: position i is reached, the words in closed are closed. */
  ghost predicate UnderWay(charset: Text, s: Text, i: nat, closed: seq<Text>, word: Text, currentLen: int, buf: Text) {
    && i <= |s| && currentLen == QLen(word)
    && closed + Words(word, s[i..]) == Words([], s)
    && buf == OpenText(charset, closed, word)
  }

  /** Lines 134-139: the piece goes into a new word or into the open one. */
  lemma NextPiece(charset: Text, s: Text, i: nat, closed: seq<Text>, word: Text, currentLen: int, buf: Text)
    requires i < |s| && UnderWay(charset, s, i, closed, word, currentLen, buf)
    ensures var n, cost := PieceLen(s[i..]), PieceCost(s[i..]);
      var piece := s[i..i + n];
      if currentLen + cost > MAX_CONTENT then
        UnderWay(charset, s, i + n, closed + [word], piece, cost, buf + SplitWord(charset) + QEncoded(piece))
      else UnderWay(charset, s, i + n, closed, word + piece, currentLen + cost, buf + QEncoded(piece))
  {
    hide QEncoded, QLen, Words, OpenText, PieceLen, PieceCost, SplitWord;
    var rest := s[i..];
    var n := PieceLen(rest);
    var piece := s[i..i + n];
    assert rest[..n] == piece && rest[n..] == s[i + n..];
    NextWord(closed, word, rest);
    PieceCostIs(rest);
    if currentLen + PieceCost(rest) > MAX_CONTENT {
      CloseWord(charset, closed, word);
      AddPiece(charset, closed + [word], [], piece);
      assert [] + piece == piece;
      FirstWord(charset, s);
    } else {
      AddPiece(charset, closed, word, piece);
    }
  }

  lemma FirstWord(charset: Text, s: Text)
    ensures QLen([]) == 0 && UnderWay(charset, s, 0, [], [], 0, Open(charset))
  {
    hide Words;
    assert s[0..] == s && [] + Words([], s) == Words([], s);
    assert [] + Open(charset) + [] == Open(charset);
  }

  lemma LastWord(charset: Text, s: Text, closed: seq<Text>, word: Text, currentLen: int, buf: Text)
    requires UnderWay(charset, s, |s|, closed, word, currentLen, buf)
    ensures buf + CLOSE == HeaderText(charset, Words([], s))
  {
    hide HeaderText, OpenText;
    assert Words(word, s[|s|..]) == [word];
    CloseAll(charset, closed, word);
  }

  lemma NextWord(closed: seq<Text>, word: Text, s: Text)
    requires s != []
    ensures var n := PieceLen(s);
      closed + Words(word, s) ==
        if QLen(word) + PieceCost(s) > MAX_CONTENT then (closed + [word]) + Words(s[..n], s[n..])
        else closed + Words(word + s[..n], s[n..])
  {
    var n := PieceLen(s);
    var next := Words(s[..n], s[n..]);
    assert closed + ([word] + next) == (closed + [word]) + next;
  }

  lemma AddPiece(charset: Text, closed: seq<Text>, word: Text, piece: Text)
    ensures OpenText(charset, closed, word) + QEncoded(piece) == OpenText(charset, closed, word + piece)
    ensures QLen(word + piece) == QLen(word) + QLen(piece)
  {
    hide QEncoded, ClosedText, Open;
    QConcat(word, piece);
    QLenConcat(word, piece);
    Assoc(ClosedText(charset, closed) + Open(charset), QEncoded(word), QEncoded(piece));
  }

  /** Words that are followed by another one. */
  function ClosedText(charset: Text, ws: seq<Text>): Text {
    if ws == [] then [] else ClosedText(charset, ws[..|ws| - 1]) + (WordText(charset, ws[|ws| - 1]) + [SPACE])
  }

  lemma CloseWord(charset: Text, closed: seq<Text>, word: Text)
    ensures OpenText(charset, closed, word) + SplitWord(charset) == OpenText(charset, closed + [word], [])
  {
    assert (closed + [word])[..|closed|] == closed;
    var c, o, q := ClosedText(charset, closed), Open(charset), QEncoded(word);
    assert ClosedText(charset, closed + [word]) == c + (o + q + CLOSE + [SPACE]);
    assert QEncoded([]) == [];
    hide ClosedText, Open, QEncoded;
    CloseParts(c, o, q);
  }

  lemma CloseParts(c: Text, o: Text, q: Text)
    ensures c + o + q + (CLOSE + [SPACE] + o) == c + (o + q + CLOSE + [SPACE]) + o + []
  {
  }

  lemma {:induction false} CloseAll(charset: Text, closed: seq<Text>, word: Text)
    ensures OpenText(charset, closed, word) + CLOSE == HeaderText(charset, closed + [word])
    decreases closed
  {
    hide Open, QEncoded;
    if closed == [] {
      assert closed + [word] == [word];
    } else {
      var rest := closed[1..];
      CloseAll(charset, rest, word);
      ClosedFront(charset, closed);
      assert (closed + [word])[1..] == rest + [word];
      var first, tail := WordText(charset, closed[0]) + [SPACE], ClosedText(charset, rest);
      hide WordText, ClosedText, HeaderText;
      assert (first + tail) + Open(charset) + QEncoded(word) + CLOSE == first + (tail + Open(charset) + QEncoded(word) + CLOSE);
    }
  }

  lemma {:induction false} ClosedFront(charset: Text, ws: seq<Text>)
    requires ws != []
    ensures ClosedText(charset, ws) == WordText(charset, ws[0]) + [SPACE] + ClosedText(charset, ws[1..])
    decreases ws
  {
    hide WordText;
    var last := ws[|ws| - 1];
    if |ws| > 1 {
      var init := ws[..|ws| - 1];
      ClosedFront(charset, init);
      assert ws[1..][..|ws| - 2] == init[1..];
      var x, y, z := WordText(charset, ws[0]) + [SPACE], ClosedText(charset, init[1..]), WordText(charset, last) + [SPACE];
      assert (x + y) + z == x + (y + z);
    } else {
      assert ws[..0] == [] && ws[1..] == [];
    }
  }

  // ----- headers -----

  /** Line 187: WordDecoder. CharsetReader is given the charset and the content and gives
      the converted text, None for an error; it is None if it is nil. */
  datatype Decoder = Decoder(charsetReader: Option<(Text, Text) -> Option<Text>>)

  /** Line 314: decode */
  function Decode(encoding: Byte, text: Text): Option<Text> {
    if encoding == 66 || encoding == 98 then B64.Decoded(text)
    else if encoding == 81 || encoding == 113 then QDecoded(text)
    else None
  }

  const ISO_8859_1: Text := [105, 115, 111, 45, 56, 56, 53, 57, 45, 49]

  /** What strings.EqualFold compares for names in ASCII: the letters in lower case, and the
      two characters beyond ASCII that fold to one of them, U+017F and U+212A. */
  function Folded(s: Text): Text
    decreases |s|
  {
    if s == [] then []
    else if |s| >= 2 && s[..2] == [0xC5, 0xBF] then [115] + Folded(s[2..])
    else if |s| >= 3 && s[..3] == [0xE2, 0x84, 0xAA] then [107] + Folded(s[3..])
    else [MT.LowerByte(s[0])] + Folded(s[1..])
  }

  /** Lines 330-332: every byte is a character. */
  function Latin1(content: Text): Text {
    if content == [] then [] else EncodeRune(content[0]) + Latin1(content[1..])
  }

  /** Lines 334-340: what is not ASCII is replaced. */
  function Replaced(content: Text): Text {
    if content == [] then []
    else (if content[0] >= 0x80 then EncodeRune(RUNE_ERROR) else [content[0]]) + Replaced(content[1..])
  }

  /** Line 325: convert */
  function Convert(d: Decoder, charset: Text, content: Text): Option<Text> {
    if IsUtf8(charset) then Some(content)
    else if Folded(charset) == ISO_8859_1 then Some(Latin1(content))
    else if Folded(charset) == MT.US_ASCII then Some(Replaced(content))
    else if d.charsetReader.None? then None
    else d.charsetReader.value(if MT.IsAscii(charset) then MT.LowerAscii(charset) else charset, content)
  }

  /** First position of the two bytes a, b, or -1. */
  function IndexPair(s: Text, a: Byte, b: Byte): (i: int)
    ensures -1 <= i && (i >= 0 ==> i + 2 <= |s| && s[i] == a && s[i + 1] == b)
  {
    if |s| < 2 then -1
    else if s[0] == a && s[1] == b then 0
    else var i := IndexPair(s[1..], a, b); if i < 0 then -1 else i + 1
  }

  /** Line 358: hasNonWhitespace. A byte of 128 or more is part of a rune that is none of
      the four. */
  predicate HasNonWhitespace(s: Text) {
    exists k :: 0 <= k < |s| && s[k] != 32 && s[k] != 9 && s[k] != 10 && s[k] != 13
  }

  /** The next candidate for an encoded word: where it starts and ends, and its parts. */
  datatype Candidate = Candidate(start: nat, end: nat, charset: Text, encoding: Byte, text: Text)

  /** Lines 254-283: None where the loop is left. */
  function NextCandidate(header: Text): (r: Option<Candidate>)
    ensures r.Some? ==> r.value.start + 2 <= r.value.end <= |header|
  {
    var start := IndexPair(header, EQUALS, QUESTION);
    if start == -1 then None else CandidateAt(header, start)
  }

  /** Lines 258-276: the charset and the encoding. */
  function CandidateAt(header: Text, start: nat): (r: Option<Candidate>)
    requires start + 2 <= |header|
    ensures r.Some? ==> r.value.start + 2 <= r.value.end <= |header|
  {
    var cur := start + 2;
    var i := IndexByte(header[cur..], QUESTION);
    if i == -1 || |header| < cur + i + 1 + 4 || header[cur + i + 2] != QUESTION then None
    else CandidateText(header, start, cur + i)
  }

  /** Lines 278-283: the text, the charset ending at position mark. */
  function CandidateText(header: Text, start: nat, mark: nat): (r: Option<Candidate>)
    requires start + 2 <= mark && mark + 3 <= |header|
    ensures r.Some? ==> r.value.start + 2 <= r.value.end <= |header|
  {
    var at := mark + 3;
    var j := IndexPair(header[at..], QUESTION, EQUALS);
    if j == -1 then None
    else Some(Candidate(start, at + j + 2, header[start + 2..mark], header[mark + 1], header[at..at + j]))
  }

  /** Line 295: the text before a word is dropped if it is white space between words. */
  function Between(front: Text, betweenWords: bool): Text {
    if front != [] && (!betweenWords || HasNonWhitespace(front)) then front else []
  }

  /** Lines 253-311, None for an error of the charset conversion. */
  function DecodedFrom(d: Decoder, header: Text, betweenWords: bool): Option<Text>
    decreases |header|
  {
    match NextCandidate(header)
    case None => Some(header)
    case Some(c) =>
      match Decode(c.encoding, c.text)
      case None => MT.PrependTo(header[..c.start + 2], DecodedFrom(d, header[c.start + 2..], false))
      case Some(content) =>
        match Convert(d, c.charset, content)
        case None => None
        case Some(out) => MT.PrependTo(Between(header[..c.start], betweenWords) + out, DecodedFrom(d, header[c.end..], true))
  }

  /** Line 240: what DecodeHeader returns. */
  function Decoded(d: Decoder, header: Text): Option<Text> {
    var i := IndexPair(header, EQUALS, QUESTION);
    if i == -1 then Some(header) else MT.PrependTo(header[..i], DecodedFrom(d, header[i..], false))
  }

  /** Line 240: DecodeHeader */
  method DecodeHeader(d: Decoder, header0: Text) returns (r: Option<Text>)
    ensures r == Decoded(d, header0)
  {
    hide NextCandidate, Convert, Between, QDecoded, Decode;
    var i := IndexPair(header0, EQUALS, QUESTION);
    if i == -1 {
      return Some(header0);
    }
    var buf := header0[..i];
    var header := header0[i..];
    var betweenWords := false;
    while true
      invariant Decoded(d, header0) == MT.PrependTo(buf, DecodedFrom(d, header, betweenWords))
      decreases |header|
    {
      var candidate := NextCandidate(header);
      if candidate.None? {
        break;
      }
      var start, end := candidate.value.start, candidate.value.end;
      var content := Decode(candidate.value.encoding, candidate.value.text);
      if content.None? {
        MT.PrependToTwice(buf, header[..start + 2], DecodedFrom(d, header[start + 2..], false));
        betweenWords := false;
        buf := buf + header[..start + 2];
        header := header[start + 2..];
        continue;
      }
      ghost var front := Between(header[..start], betweenWords);
      ghost var buf' := buf;
      buf := WriteBetween(buf, header[..start], betweenWords);
      var out := Convert(d, candidate.value.charset, content.value);
      if out.None? {
        return None;
      }
      MT.PrependToTwice(buf', front + out.value, DecodedFrom(d, header[end..], true));
      Assoc(buf', front, out.value);
      buf := buf + out.value;
      header := header[end..];
      betweenWords := true;
    }
    if |header| > 0 {
      buf := buf + header;
    }
    assert buf + [] == buf;
    return Some(buf);
  }

  /** Lines 295-297 */
  method WriteBetween(buf0: Text, front: Text, betweenWords: bool) returns (buf: Text)
    ensures buf == buf0 + Between(front, betweenWords)
  {
    buf := buf0;
    if |front| > 0 && (!betweenWords || HasNonWhitespace(front)) {
      buf := buf + front;
    }
  }

  // ----- the round trip -----

  lemma {:induction false} IndexPairIs(pre: Text, a: Byte, b: Byte, tail: Text)
    requires a != b && IndexPair(pre, a, b) == -1
    ensures IndexPair(pre + [a, b] + tail, a, b) == |pre|
    decreases pre
  {
    var s := pre + [a, b] + tail;
    if pre == [] {
      assert s == [a, b] + tail;
    } else {
      assert s[1..] == pre[1..] + [a, b] + tail && s[0] == pre[0];
      assert |pre| > 1 ==> s[1] == pre[1];
      IndexPairIs(pre[1..], a, b, tail);
    }
  }

  lemma {:induction false} NoPair(s: Text, a: Byte, b: Byte)
    requires a !in s
    ensures IndexPair(s, a, b) == -1
    decreases s
  {
    if |s| >= 2 { NoPair(s[1..], a, b); }
  }

  /** An encoded word (section 2 of RFC 2047). */
  datatype Word = Word(charset: Text, encoding: Byte, text: Text)

  function WordForm(w: Word): Text {
    [EQUALS, QUESTION] + (w.charset + ([QUESTION, w.encoding, QUESTION] + (w.text + CLOSE)))
  }

  /** The charset ends at the first question mark, the text at the first "?=". */
  predicate WordOk(w: Word) { QUESTION !in w.charset && IndexPair(w.text, QUESTION, EQUALS) == -1 }

  function CandidateOf(start: nat, w: Word): Candidate {
    Candidate(start, start + |w.charset| + |w.text| + 7, w.charset, w.encoding, w.text)
  }

  /** A word is found, with its parts, behind any text in which none begins and whatever
      follows it. */
  lemma WordFound(pre: Text, w: Word, tail: Text)
    requires WordOk(w) && IndexPair(pre, EQUALS, QUESTION) == -1
    ensures |WordForm(w)| == |w.charset| + |w.text| + 7
    ensures NextCandidate(pre + WordForm(w) + tail) == Some(CandidateOf(|pre|, w))
  {
    WordSplit(pre, w, tail);
    FoundIn(pre + WordForm(w) + tail, pre, w, tail);
  }

  lemma FoundIn(h: Text, pre: Text, w: Word, tail: Text)
    requires h == pre + WordForm(w) + tail && WordOk(w) && IndexPair(pre, EQUALS, QUESTION) == -1
    ensures NextCandidate(h) == Some(CandidateOf(|pre|, w))
  {
    hide IndexPair, IndexByte, NextCandidate, WordForm;
    OpenAt(h, pre, w, tail);
    var mark, at := EndAt(h, pre, w, tail);
    FoundParts(h, |pre|, mark, at, w);
  }

  lemma FoundParts(h: Text, start: nat, mark: nat, at: nat, w: Word)
    requires start + 2 + |w.charset| == mark && at == mark + 3 && at + |w.text| + 2 <= |h|
    requires IndexPair(h, EQUALS, QUESTION) == start && IndexByte(h[start + 2..], QUESTION) == |w.charset|
    requires h[mark + 2] == QUESTION && IndexPair(h[at..], QUESTION, EQUALS) == |w.text|
    requires h[start + 2..mark] == w.charset && h[mark + 1] == w.encoding && h[at..at + |w.text|] == w.text
    ensures NextCandidate(h) == Some(CandidateOf(start, w))
  {
    hide IndexPair, IndexByte, NextCandidate;
    CandidateFrom(h, start, mark, at, |w.text|);
    SameCandidate(NextCandidate(h).value, CandidateOf(start, w));
  }

  lemma SameCandidate(a: Candidate, b: Candidate)
    requires a.start == b.start && a.end == b.end && a.charset == b.charset && a.encoding == b.encoding && a.text == b.text
    ensures a == b
  {
  }

  /** What follows the "=?" of a word. */
  function AfterOpen(w: Word, tail: Text): Text { w.charset + ([QUESTION, w.encoding, QUESTION] + (w.text + (CLOSE + tail))) }

  lemma WordSplit(pre: Text, w: Word, tail: Text)
    ensures pre + WordForm(w) + tail == pre + [EQUALS, QUESTION] + AfterOpen(w, tail)
    ensures |WordForm(w)| == |w.charset| + |w.text| + 7
  {
    var mid, open := [QUESTION, w.encoding, QUESTION], [EQUALS, QUESTION];
    Assoc(w.text, CLOSE, tail);
    Assoc(mid, w.text + CLOSE, tail);
    Assoc(w.charset, mid + (w.text + CLOSE), tail);
    Assoc(open, w.charset + (mid + (w.text + CLOSE)), tail);
    Assoc(pre, WordForm(w), tail);
    Assoc(pre, open, AfterOpen(w, tail));
  }

  /** Where a word starts and its charset ends. */
  lemma OpenAt(h: Text, pre: Text, w: Word, tail: Text)
    requires h == pre + WordForm(w) + tail && QUESTION !in w.charset && IndexPair(pre, EQUALS, QUESTION) == -1
    ensures |h| >= |pre| + 2 && IndexPair(h, EQUALS, QUESTION) == |pre|
    ensures IndexByte(h[|pre| + 2..], QUESTION) == |w.charset|
  {
    hide IndexPair, IndexByte, WordForm, AfterOpen;
    WordSplit(pre, w, tail);
    var rest := AfterOpen(w, tail);
    IndexPairIs(pre, EQUALS, QUESTION, rest);
    assert h[|pre| + 2..] == rest;
    CharsetEnds(w, tail);
  }

  lemma CharsetEnds(w: Word, tail: Text)
    requires QUESTION !in w.charset
    ensures IndexByte(AfterOpen(w, tail), QUESTION) == |w.charset|
  {
    hide IndexByte;
    var rest := AfterOpen(w, tail);
    assert rest[..|w.charset|] == w.charset && rest[|w.charset|] == QUESTION;
    IndexByteUnique(rest, QUESTION, |w.charset|);
  }

  /** Where it ends, and its parts. */
  lemma EndAt(h: Text, pre: Text, w: Word, tail: Text) returns (mark: nat, at: nat)
    requires h == pre + WordForm(w) + tail && IndexPair(w.text, QUESTION, EQUALS) == -1
    ensures mark == |pre| + 2 + |w.charset| && at == mark + 3 && at + |w.text| + 2 <= |h|
    ensures IndexPair(h[at..], QUESTION, EQUALS) == |w.text|
    ensures h[|pre| + 2..mark] == w.charset && h[at..at + |w.text|] == w.text
    ensures h[mark + 1] == w.encoding && h[mark + 2] == QUESTION
  {
    hide IndexPair, WordForm;
    WordSplit(pre, w, tail);
    var cur := |pre| + 2;
    var rest := AfterOpen(w, tail);
    mark, at := cur + |w.charset|, cur + |w.charset| + 3;
    assert h[cur..] == rest;
    TextEnds(w, tail);
    Within(h, cur, |w.charset| + 3);
    Within(h, cur, |w.charset| + 3 + |w.text|);
  }

  lemma Within(h: Text, cur: nat, n: nat)
    requires cur + n <= |h|
    ensures h[cur..][n..] == h[cur + n..]
    ensures forall i, j | 0 <= i <= j <= n :: h[cur..][i..j] == h[cur + i..cur + j]
  {
  }

  lemma TextEnds(w: Word, tail: Text)
    requires IndexPair(w.text, QUESTION, EQUALS) == -1
    ensures var rest, n := AfterOpen(w, tail), |w.charset| + 3;
      && n + |w.text| + 2 <= |rest| && rest[..|w.charset|] == w.charset && rest[n..n + |w.text|] == w.text
      && rest[n - 2] == w.encoding && rest[n - 1] == QUESTION && IndexPair(rest[n..], QUESTION, EQUALS) == |w.text|
  {
    hide IndexPair;
    var rest, n := AfterOpen(w, tail), |w.charset| + 3;
    assert rest[n..] == w.text + [QUESTION, EQUALS] + tail;
    IndexPairIs(w.text, QUESTION, EQUALS, tail);
  }

  /** A written word is found, with its parts, whatever follows it. */
  lemma CandidateIs(pre: Text, charset: Text, w: Text, tail: Text)
    requires IsUtf8(charset) && (pre == [] || pre == [SPACE])
    ensures NextCandidate(pre + WordText(charset, w) + tail)
      == Some(Candidate(|pre|, |pre| + |WordText(charset, w)|, charset, ENCODING, QEncoded(w)))
  {
    hide QEncoded, IsUtf8, IndexPair, NextCandidate;
    var q := QEncoded(w);
    NoQuestionInCharset(charset);
    NoQuestion(w);
    NoPair(q, QUESTION, EQUALS);
    NoPair(pre, EQUALS, QUESTION);
    WordFound(pre, Word(charset, ENCODING, q), tail);
    assert WordText(charset, w) == WordForm(Word(charset, ENCODING, q));
  }

  lemma CandidateFrom(h: Text, start: nat, mark: nat, at: nat, j: nat)
    requires start + 2 <= mark && mark + 5 <= |h| && at == mark + 3
    requires IndexPair(h, EQUALS, QUESTION) == start && IndexByte(h[start + 2..], QUESTION) == mark - start - 2
    requires at + j + 2 <= |h| && h[mark + 2] == QUESTION && IndexPair(h[at..], QUESTION, EQUALS) == j
    ensures NextCandidate(h) == Some(Candidate(start, at + j + 2, h[start + 2..mark], h[mark + 1], h[at..at + j]))
  {
    hide IndexPair, IndexByte, CandidateAt, CandidateText;
    PartsFrom(h, start, mark);
    TextFrom(h, start, mark, at, j);
    var r := CandidateAt(h, start);
    assert NextCandidate(h) == r;
    hide NextCandidate;
  }

  lemma TextFrom(h: Text, start: nat, mark: nat, at: nat, j: nat)
    requires start + 2 <= mark && at == mark + 3
    requires at + j + 2 <= |h| && IndexPair(h[at..], QUESTION, EQUALS) == j
    ensures CandidateText(h, start, mark) == Some(Candidate(start, at + j + 2, h[start + 2..mark], h[mark + 1], h[at..at + j]))
  {
    hide IndexPair;
  }

  lemma PartsFrom(h: Text, start: nat, mark: nat)
    requires start + 2 <= mark && mark + 5 <= |h|
    requires IndexByte(h[start + 2..], QUESTION) == mark - start - 2 && h[mark + 2] == QUESTION
    ensures CandidateAt(h, start) == CandidateText(h, start, mark)
  {
    hide IndexByte, CandidateText;
  }

  lemma NoQuestionInCharset(charset: Text)
    requires IsUtf8(charset)
    ensures QUESTION !in charset
  {
    var low := MT.LowerAscii(charset);
    assert forall k | 0 <= k < |charset| :: low[k] == MT.LowerByte(charset[k]) && low[k] == MT.CHARSET[k];
  }

  lemma {:induction false} DecodedWords(d: Decoder, charset: Text, ws: seq<Text>, pre: Text)
    requires IsUtf8(charset) && ws != [] && (pre == [] || pre == [SPACE])
    ensures DecodedFrom(d, pre + HeaderText(charset, ws), true) == Some(Flatten(ws))
    ensures pre == [] ==> DecodedFrom(d, pre + HeaderText(charset, ws), false) == Some(Flatten(ws))
    decreases ws
  {
    hide QEncoded, IsUtf8, NextCandidate, WordText, QDecoded;
    var tail := if |ws| == 1 then [] else [SPACE] + HeaderText(charset, ws[1..]);
    var h := pre + HeaderText(charset, ws);
    assert h == pre + WordText(charset, ws[0]) + tail;
    CandidateIs(pre, charset, ws[0], tail);
    QDecodedOfEncoded(ws[0]);
    assert h[|pre| + |WordText(charset, ws[0])|..] == tail && h[..|pre|] == pre;
    assert Between(pre, true) == [];
    assert [] + ws[0] == ws[0];
    if |ws| == 1 {
      assert DecodedFrom(d, [], true) == Some([]) by { NoCandidate(); }
      assert Flatten(ws) == ws[0] + [];
    } else {
      DecodedWords(d, charset, ws[1..], [SPACE]);
    }
  }

  lemma NoCandidate()
    ensures NextCandidate([]) == None
  {
  }

  /** Decoding the encoded words of s gives s back, for every byte string and every
      decoder. */
  lemma RoundTrip(d: Decoder, charset: Text, s: Text)
    requires IsUtf8(charset)
    ensures Decoded(d, Encoded(charset, s)) == Some(s)
  {
    hide IsUtf8, DecodedFrom, Words, Flatten, QEncoded;
    var ws := Words([], s);
    FirstWord(charset, s);
    WordsSplit([], s);
    assert [] + s == s;
    DecodedWords(d, charset, ws, []);
    var h := HeaderText(charset, ws);
    var afterOpen := h[2..];
    assert h == [] + [EQUALS, QUESTION] + afterOpen;
    IndexPairIs([], EQUALS, QUESTION, afterOpen);
    assert h[..0] == [] && h[0..] == h && [] + h == h;
    MT.NothingPrepended(DecodedFrom(d, h, false));
  }

  // ----- Encode -----

  /** Line 35: Encode. ASCII without control characters is returned as it is. */
  function Encode(charset: Text, s: Text): Text { if MT.NeedsEncoding(s) then Encoded(charset, s) else s }

  /** No part of the header is taken for an encoded word. */
  predicate NoWord(header: Text)
    decreases |header|
  {
    match NextCandidate(header)
    case None => true
    case Some(c) => Decode(c.encoding, c.text).None? && NoWord(header[c.start + 2..])
  }

  lemma CandidateLength(header: Text)
    ensures NextCandidate(header).Some? ==>
      var c := NextCandidate(header).value; c.end == c.start + |c.charset| + |c.text| + 7
  {
    hide IndexPair, IndexByte;
  }

  /** Neither encoding makes a text longer. */
  lemma DecodeLength(encoding: Byte, text: Text)
    ensures Decode(encoding, text).Some? ==> |Decode(encoding, text).value| <= |text|
  {
    B64.DecodedLength(text);
    QDecodedLength(text);
  }

  lemma {:induction false} QDecodedLength(s: Text)
    ensures QDecoded(s).Some? ==> |QDecoded(s).value| <= |s|
    decreases |s|
  {
    hide MT.IsHex, MT.Unhex;
    if s != [] {
      QDecodedLength(s[1..]);
      if |s| >= 3 { QDecodedLength(s[3..]); }
    }
  }

  lemma AsciiParts(a: Text, b: Text)
    ensures MT.IsAscii(a + b) <==> MT.IsAscii(a) && MT.IsAscii(b)
  {
    var s := a + b;
    assert forall k | 0 <= k < |a| :: a[k] == s[k];
    assert forall k | 0 <= k < |b| :: b[k] == s[|a| + k];
  }

  /** A conversion from iso-8859-1 or us-ascii that comes out in ASCII changed nothing. */
  lemma {:induction false} AsciiUnchanged(content: Text)
    ensures MT.IsAscii(Latin1(content)) ==> Latin1(content) == content
    ensures MT.IsAscii(Replaced(content)) ==> Replaced(content) == content
    decreases content
  {
    if content != [] {
      var c, rest := content[0], content[1..];
      AsciiUnchanged(rest);
      AsciiParts(EncodeRune(c), Latin1(rest));
      AsciiParts(if c >= 0x80 then EncodeRune(RUNE_ERROR) else [c], Replaced(rest));
      FirstBytes(c);
      assert content == [c] + rest;
    }
  }

  lemma FirstBytes(c: Byte)
    ensures c < 0x80 ==> EncodeRune(c) == [c]
    ensures c >= 0x80 ==> !MT.IsAscii(EncodeRune(c))
    ensures !MT.IsAscii(EncodeRune(RUNE_ERROR))
  {
    assert c >= 0x80 ==> EncodeRune(c)[0] >= 0x80;
    assert EncodeRune(RUNE_ERROR)[0] >= 0x80;
  }

  /** What is asked of a CharsetReader of the client's own: text it gives that is all ASCII
      has no more bytes than what it was given. The zero WordDecoder has none. */
  ghost predicate ShortAscii(d: Decoder) {
    d.charsetReader.Some? ==>
      forall charset, content :: var r := d.charsetReader.value(charset, content);
        r.Some? && MT.IsAscii(r.value) ==> |r.value| <= |content|
  }

  lemma ConvertLength(d: Decoder, charset: Text, content: Text)
    requires ShortAscii(d)
    ensures var r := Convert(d, charset, content); r.Some? && MT.IsAscii(r.value) ==> |r.value| <= |content|
  {
    hide Folded, MT.IsAscii;
    AsciiUnchanged(content);
  }

  /** A header in which a word was decoded cannot come out as the same ASCII text: the word
      has become shorter, or its output is not ASCII. */
  lemma {:induction false} DecodedShorter(d: Decoder, header: Text, betweenWords: bool)
    requires ShortAscii(d)
    ensures var r := DecodedFrom(d, header, betweenWords);
      && (r.Some? && MT.IsAscii(r.value) ==> |r.value| <= |header| && (|r.value| == |header| ==> NoWord(header)))
      && (NoWord(header) ==> r == Some(header))
    decreases |header|
  {
    hide NextCandidate, Decode, Convert, MT.IsAscii;
    CandidateLength(header);
    var n := NextCandidate(header);
    if n.Some? {
      var c := n.value;
      var content := Decode(c.encoding, c.text);
      if content.None? {
        var front, rest := header[..c.start + 2], header[c.start + 2..];
        DecodedShorter(d, rest, false);
        var r := DecodedFrom(d, rest, false);
        if r.Some? { AsciiParts(front, r.value); }
        assert header == front + rest;
      } else {
        WordShorter(d, header, betweenWords, c);
      }
    }
  }

  lemma WordShorter(d: Decoder, header: Text, betweenWords: bool, c: Candidate)
    requires ShortAscii(d) && NextCandidate(header) == Some(c) && Decode(c.encoding, c.text).Some?
    requires c.end == c.start + |c.charset| + |c.text| + 7
    ensures var r := DecodedFrom(d, header, betweenWords);
      r.Some? && MT.IsAscii(r.value) ==> |r.value| < |header|
    decreases |header|, 0
  {
    hide NextCandidate, Decode, Convert, MT.IsAscii, NoWord;
    DecodeLength(c.encoding, c.text);
    var content := Decode(c.encoding, c.text).value;
    ConvertLength(d, c.charset, content);
    var out := Convert(d, c.charset, content);
    var rest := DecodedFrom(d, header[c.end..], true);
    if out.Some? && rest.Some? {
      var front := Between(header[..c.start], betweenWords);
      AsciiParts(front, out.value);
      AsciiParts(front + out.value, rest.value);
      DecodedShorter(d, header[c.end..], true);
    }
  }

  /** Decoding what Encode returns gives s back exactly if s was encoded or no part of it
      can be taken for an encoded word itself. */
  lemma EncodeRoundTrip(d: Decoder, charset: Text, s: Text)
    requires IsUtf8(charset) && ShortAscii(d)
    ensures var i := IndexPair(s, EQUALS, QUESTION);
      Decoded(d, Encode(charset, s)) == Some(s) <==> MT.NeedsEncoding(s) || i == -1 || NoWord(s[i..])
  {
    hide IsUtf8, Decoded, NoWord, Encoded, MT.NeedsEncoding;
    if MT.NeedsEncoding(s) {
      RoundTrip(d, charset, s);
    } else {
      PlainIsAscii(s);
      AsciiRoundTrip(d, s);
    }
  }

  /** Text that is left as it is when it is encoded. */
  lemma AsciiRoundTrip(d: Decoder, s: Text)
    requires ShortAscii(d) && MT.IsAscii(s)
    ensures var i := IndexPair(s, EQUALS, QUESTION);
      Decoded(d, s) == Some(s) <==> i == -1 || NoWord(s[i..])
  {
    hide DecodedFrom, NoWord, ShortAscii;
    var i := IndexPair(s, EQUALS, QUESTION);
    if i != -1 {
      var front, tail := s[..i], s[i..];
      assert s == front + tail;
      AsciiParts(front, tail);
      DecodedShorter(d, tail, false);
      var r := DecodedFrom(d, tail, false);
      if r.Some? && front + r.value == s { SameRest(front, r.value, tail); }
    }
  }

  lemma PlainIsAscii(s: Text)
    requires !MT.NeedsEncoding(s)
    ensures MT.IsAscii(s)
  {
    forall k | 0 <= k < |s|
      ensures s[k] < 0x80
    {
      assert s[k] <= 126 || MT.NeedsEncoding(s);
    }
  }

  /** The same for the decoder everybody uses, new(WordDecoder), without any condition. */
  lemma DefaultRoundTrip(charset: Text, s: Text)
    requires IsUtf8(charset)
    ensures var i := IndexPair(s, EQUALS, QUESTION);
      Decoded(Decoder(None), Encode(charset, s)) == Some(s) <==> MT.NeedsEncoding(s) || i == -1 || NoWord(s[i..])
  {
    hide IsUtf8, Decoded, NoWord, Encode;
    EncodeRoundTrip(Decoder(None), charset, s);
  }

  /** "=?utf-8?q?a?=" needs no encoding, but decodes to "a". */
  lemma EncodeNotInverse(d: Decoder)
    ensures var s: Text := [61, 63, 117, 116, 102, 45, 56, 63, 113, 63, 97, 63, 61];
      Decoded(d, Encode(MT.CHARSET, s)) == Some([97])
  {
    hide QEncoded, Words, HeaderText, Decoded, RuneLen;
    var s: Text := [61, 63, 117, 116, 102, 45, 56, 63, 113, 63, 97, 63, 61];
    assert MT.LowerAscii(MT.CHARSET) == MT.CHARSET;
    assert !MT.NeedsEncoding(s);
    OneLetter();
    RoundTrip(d, MT.CHARSET, [97]);
  }

  lemma OneLetter()
    ensures HeaderText(MT.CHARSET, Words([], [97])) == [61, 63, 117, 116, 102, 45, 56, 63, 113, 63, 97, 63, 61]
  {
    var a: Text := [97];
    assert a[..1] == a && a[1..] == [] && [] + a == a;
    assert Words(a, []) == [a];
    assert Words([], a) == [a];
    assert QEncoded(a) == [97] + QEncoded([]);
  }

  // ----- how words are filled -----

  /** Q encoding leaves printable ASCII only: no spaces, and no character that means something
      in a word. */
  lemma {:induction false} QPrintable(s: Text)
    ensures forall c | c in QEncoded(s) :: 33 <= c <= 126 && c != QUESTION
    decreases s
  {
    if s != [] {
      QByteIs(s[0]);
      QPrintable(s[1..]);
      QBytePrintable(s[0]);
    }
  }

  lemma QBytePrintable(b: Byte)
    ensures forall c | c in QByte(b) :: 33 <= c <= 126 && c != QUESTION
  {
  }

  /** The character that a word begins with would not have fitted into the one before. */
  ghost predicate Full(w: Text, next: Text) { next != [] && PieceLen(next) <= |next| && QLen(w) + PieceCost(next) > MAX_CONTENT }

  lemma {:induction false} WordsFull(word: Text, s: Text)
    ensures var ws := Words(word, s); forall k | 0 <= k < |ws| - 1 :: Full(ws[k], Rest(ws, k + 1))
    ensures Flatten(Words(word, s)) == word + s
    decreases |s|
  {
    hide QLen, PieceCost, PieceLen;
    if s == [] {
      assert Flatten([word]) == word + Flatten([]) == word + s;
    } else {
      var n := PieceLen(s);
      assert s == s[..n] + s[n..];
      if QLen(word) + PieceCost(s) > MAX_CONTENT {
        WordsFull(s[..n], s[n..]);
        var rest := Words(s[..n], s[n..]);
        var ws := [word] + rest;
        assert ws[1..] == rest;
        forall k | 0 <= k < |ws| - 1
          ensures Full(ws[k], Rest(ws, k + 1))
        {
          if k > 0 { assert ws[k + 1..] == rest[k..] && ws[k] == rest[k - 1]; }
        }
      } else {
        WordsFull(word + s[..n], s[n..]);
        assert word + s[..n] + s[n..] == word + s;
      }
    }
  }

  /** The text from word k on. */
  function Rest(ws: seq<Text>, k: nat): Text
    requires k <= |ws|
  {
    Flatten(ws[k..])
  }
}
