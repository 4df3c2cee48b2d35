/** The B encoding of WordEncoder: base64, in words that split no character. */
module BEncoding {
  import opened Common
  import opened Utf8
  import opened EncodedWord
  import HS = HeaderSyntax
  import B64 = Base64
  import MT = MediaType

  const B: Byte := 98  // b

  /** Line 79: DecodedLen(maxContentLen) */
  const MAX_BYTES: nat := 45

  /** The words of s after those already closed, word being the open one. */
  function BWords(word: Text, s: Text): (ws: seq<Text>)
    ensures ws != []
    decreases |s|
  {
    if s == [] then [word]
    else
      var n := RuneLen(s);
      if |word| + n <= MAX_BYTES then BWords(word + s[..n], s[n..]) else [word] + BWords(s[..n], s[n..])
  }

  /** EncodedLen */
  function EncodedLen(n: nat): nat { (n + 2) / 3 * 4 }

  /** Lines 84-90: all in one word unless the charset is UTF-8 and the text is long. */
  function Split(charset: Text, s: Text): seq<Text> {
    if !IsUtf8(charset) || EncodedLen(|s|) <= MAX_CONTENT then [s] else BWords([], s)
  }

  function BWord(charset: Text, w: Text): Word { Word(charset, B, B64.Encoded(w)) }

  /** The words with a space between them. */
  function BText(charset: Text, ws: seq<Text>): Text
    requires ws != []
  {
    WordForm(BWord(charset, ws[0])) + if |ws| == 1 then [] else [SPACE] + BText(charset, ws[1..])
  }

  // ----- what the words are -----

  /** The character that a word begins with would not have fitted into the one before. */
  ghost predicate Full(w: Text, next: Text) { next != [] && |w| + RuneLen(next) > MAX_BYTES }

  ghost predicate AllFull(ws: seq<Text>) { forall k | 0 <= k < |ws| - 1 :: Full(ws[k], Rest(ws, k + 1)) }

  /** No byte is lost, no word has more than 45 bytes, and every word but the last is full. */
  lemma {:induction false} BWordsAre(word: Text, s: Text)
    requires |word| <= MAX_BYTES
    ensures Flatten(BWords(word, s)) == word + s
    ensures forall w | w in BWords(word, s) :: |w| <= MAX_BYTES
    ensures AllFull(BWords(word, s))
    decreases |s|
  {
    hide RuneLen, AllFull;
    OneWord(word);
    if s == [] {
      assert Flatten([word]) == word + Flatten([]) == word + s;
    } else {
      var n := RuneLen(s);
      assert s == s[..n] + s[n..];
      if |word| + n <= MAX_BYTES {
        BWordsAre(word + s[..n], s[n..]);
        assert word + s[..n] + s[n..] == word + s;
      } else {
        BWordsAre(s[..n], s[n..]);
        FullFirst(word, BWords(s[..n], s[n..]), s);
      }
    }
  }

  lemma OneWord(word: Text)
    ensures AllFull([word])
  {
  }

  lemma FullFirst(word: Text, rest: seq<Text>, s: Text)
    requires AllFull(rest) && Flatten(rest) == s && Full(word, s)
    ensures AllFull([word] + rest) && Flatten([word] + rest) == word + s
  {
    hide Full;
    var ws := [word] + rest;
    assert ws[1..] == rest;
    forall k | 0 <= k < |ws| - 1
      ensures Full(ws[k], Rest(ws, k + 1))
    {
      if k > 0 { assert ws[k + 1..] == rest[k..] && ws[k] == rest[k - 1]; }
    }
  }

  /** No character is split. */
  lemma {:induction false} BWordsValid(word: Text, s: Text)
    requires Valid(word) && Valid(s)
    ensures forall w | w in BWords(word, s) :: Valid(w)
    decreases |s|
  {
    if s != [] {
      var n := RuneLen(s);
      FirstRune(s);
      hide Valid, RuneLen;
      if |word| + n <= MAX_BYTES {
        ValidConcat(word, s[..n]);
        BWordsValid(word + s[..n], s[n..]);
      } else {
        BWordsValid(s[..n], s[n..]);
      }
    }
  }

  lemma {:induction false} Base64Length(w: Text)
    ensures |B64.Encoded(w)| == EncodedLen(|w|)
    decreases |w|
  {
    hide B64.Char;
    if |w| >= 3 {
      var rest := B64.Encoded(w[3..]);
      Base64Length(w[3..]);
      assert |B64.Encoded(w)| == 4 + |rest|;
      ThreeMore(|w| - 3);
    }
  }

  lemma ThreeMore(n: nat)
    ensures EncodedLen(n + 3) == EncodedLen(n) + 4
  {
    assert (n + 5) / 3 == (n + 2) / 3 + 1;
  }

  lemma {:induction false} NoQuestionIn(w: Text)
    ensures QUESTION !in B64.Encoded(w)
    decreases |w|
  {
    CharsAre();
    if |w| >= 3 {
      NoQuestionIn(w[3..]);
      assert B64.Encoded(w)[4..] == B64.Encoded(w[3..]);
    }
  }

  lemma CharsAre()
    ensures forall v | 0 <= v < 64 :: B64.Char(v) != QUESTION
  {
  }

  /** In UTF-8 no word has more than 75 characters (section 2 of RFC 2047). */
  lemma BWordLength(charset: Text, s: Text, w: Text)
    requires IsUtf8(charset) && w in Split(charset, s)
    ensures |WordForm(BWord(charset, w))| <= MAX_WORD
  {
    hide IsUtf8, BWords, B64.Encoded;
    CharsetLength(charset);
    BWordsAre([], s);
    Base64Length(w);
  }

  lemma CharsetLength(charset: Text)
    requires IsUtf8(charset)
    ensures |charset| == 5
  {
  }

  // ----- the loop -----

  /** Line 52: encodeWord and line 82: bEncode. The base64 encoder hands out all of a word when
      it is closed. */
  method BEncode(charset: Text, s: Text) returns (buf: Text)
    ensures buf == BText(charset, Split(charset, s))
  {
    hide WordForm, B64.Encoded, RuneLen;
    if !IsUtf8(charset) || EncodedLen(|s|) <= MAX_CONTENT {
      return WordForm(BWord(charset, s));
    }
    var currentLen, last, i := 0, 0, 0;
    buf := [];
    ghost var closed: seq<Text> := [];
    assert s[0..] == s && s[0..0] == [] && [] + BWords([], s) == BWords([], s);
    while i < |s|
      invariant 0 <= last <= i <= |s| && currentLen == i - last
      invariant closed + BWords(s[last..i], s[i..]) == BWords([], s)
      invariant buf == Closed(charset, closed)
      decreases |s| - i
    {
      hide BWords, Closed;
      var runeLen := RuneLen(s[i..]);
      NextRune(closed, s, last, i);
      if currentLen + runeLen <= MAX_BYTES {
        currentLen := currentLen + runeLen;
      } else {
        ClosedSnoc(charset, closed, s[last..i]);
        buf := buf + (WordForm(BWord(charset, s[last..i])) + [SPACE]);
        closed := closed + [s[last..i]];
        last := i;
        currentLen := runeLen;
      }
      i := i + runeLen;
    }
    assert BWords(s[last..i], s[i..]) == [s[last..]] by { assert s[i..] == [] && s[last..i] == s[last..]; }
    Ended(charset, closed, s[last..]);
    buf := buf + WordForm(BWord(charset, s[last..]));
  }

  /** Words that are followed by another one. */
  function Closed(charset: Text, ws: seq<Text>): Text {
    if ws == [] then [] else Closed(charset, ws[..|ws| - 1]) + (WordForm(BWord(charset, ws[|ws| - 1])) + [SPACE])
  }

  lemma ClosedSnoc(charset: Text, ws: seq<Text>, w: Text)
    ensures Closed(charset, ws + [w]) == Closed(charset, ws) + (WordForm(BWord(charset, w)) + [SPACE])
  {
    assert (ws + [w])[..|ws|] == ws;
  }

  lemma NextRune(closed: seq<Text>, s: Text, last: nat, i: nat)
    requires last <= i < |s|
    ensures i + RuneLen(s[i..]) <= |s|
    ensures var n := RuneLen(s[i..]);
      closed + BWords(s[last..i], s[i..]) ==
        if i - last + n <= MAX_BYTES then closed + BWords(s[last..i + n], s[i + n..])
        else (closed + [s[last..i]]) + BWords(s[i..i + n], s[i + n..])
  {
    hide RuneLen;
    var n := RuneLen(s[i..]);
    assert s[i..][..n] == s[i..i + n] && s[i..][n..] == s[i + n..];
    assert s[last..i] + s[i..i + n] == s[last..i + n];
    var next := BWords(s[i..i + n], s[i + n..]);
    assert closed + ([s[last..i]] + next) == (closed + [s[last..i]]) + next;
  }

  lemma {:induction false} Ended(charset: Text, closed: seq<Text>, w: Text)
    ensures Closed(charset, closed) + WordForm(BWord(charset, w)) == BText(charset, closed + [w])
    decreases closed
  {
    hide WordForm, B64.Encoded;
    if closed == [] {
      assert closed + [w] == [w];
      assert WordForm(BWord(charset, w)) + [] == WordForm(BWord(charset, w));
    } else {
      var rest := closed[1..];
      Ended(charset, rest, w);
      ClosedFirst(charset, closed);
      assert (closed + [w])[1..] == rest + [w];
      var x := WordForm(BWord(charset, closed[0]));
      FourParts(x, Closed(charset, rest), WordForm(BWord(charset, w)));
    }
  }

  lemma FourParts(x: Text, c: Text, y: Text)
    ensures (x + [SPACE] + c) + y == x + ([SPACE] + (c + y))
  {
  }

  lemma {:induction false} ClosedFirst(charset: Text, ws: seq<Text>)
    requires ws != []
    ensures Closed(charset, ws) == WordForm(BWord(charset, ws[0])) + [SPACE] + Closed(charset, ws[1..])
    decreases ws
  {
    hide WordForm, B64.Encoded;
    var last := ws[|ws| - 1];
    if |ws| > 1 {
      var init := ws[..|ws| - 1];
      ClosedFirst(charset, init);
      assert ws[1..][..|ws| - 2] == init[1..];
      Assoc(WordForm(BWord(charset, ws[0])) + [SPACE], Closed(charset, init[1..]), WordForm(BWord(charset, last)) + [SPACE]);
    } else {
      assert ws[..0] == [] && ws[1..] == [];
    }
  }

  // ----- the round trip -----

  /** The words as pieces of a header. */
  function Chunks(charset: Text, ws: seq<Text>): seq<HS.Chunk>
    requires ws != []
  {
    [HS.Encoded(BWord(charset, ws[0]), ws[0])] + if |ws| == 1 then [] else [HS.Plain([SPACE])] + Chunks(charset, ws[1..])
  }

  lemma {:induction false} ChunksOkay(d: Decoder, charset: Text, ws: seq<Text>)
    requires ws != [] && IsUtf8(charset)
    ensures var cs := Chunks(charset, ws); !cs[0].Plain? && HS.ChunksOk(d, cs) && forall c | c in cs :: !c.Failing?
    decreases ws
  {
    hide WordForm, BWord, IsUtf8, HS.ChunkOk;
    WordIsOk(d, charset, ws[0]);
    SpaceIsOk(d);
    if |ws| > 1 {
      ChunksOkay(d, charset, ws[1..]);
      var first, rest := HS.Encoded(BWord(charset, ws[0]), ws[0]), Chunks(charset, ws[1..]);
      var cs := Chunks(charset, ws);
      assert cs == [first, HS.Plain([SPACE])] + rest;
      forall k | 0 <= k < |cs|
        ensures HS.ChunkOk(d, cs[k])
      {
        if k > 1 { assert cs[k] == rest[k - 2]; }
      }
      assert HS.Apart(cs) by { ChunksApart(first, rest); }
    }
  }

  lemma ChunksApart(first: HS.Chunk, rest: seq<HS.Chunk>)
    requires first.Encoded? && rest != [] && !rest[0].Plain? && HS.Apart(rest)
    ensures HS.Apart([first, HS.Plain([SPACE])] + rest)
  {
    var cs := [first, HS.Plain([SPACE])] + rest;
    forall k | 0 <= k < |cs| - 1 && cs[k + 1].Plain?
      ensures !cs[k].Plain? && (cs[k].Broken? && cs[k + 1].t != [] ==> cs[k + 1].t[0] != QUESTION)
    {
      if k > 0 {
        assert cs[k + 1] == rest[k - 1];
        if k > 1 { assert cs[k] == rest[k - 2] && cs[k + 1] == rest[(k - 2) + 1]; }
      }
    }
  }

  lemma SpaceIsOk(d: Decoder)
    ensures HS.ChunkOk(d, HS.Plain([SPACE]))
  {
  }

  lemma {:induction false} ChunksWritten(charset: Text, ws: seq<Text>)
    requires ws != []
    ensures HS.ChunksText(Chunks(charset, ws)) == BText(charset, ws)
    decreases ws
  {
    hide WordForm, BWord;
    if |ws| > 1 {
      ChunksWritten(charset, ws[1..]);
      var cs, rest := Chunks(charset, ws), Chunks(charset, ws[1..]);
      assert cs[1..] == [HS.Plain([SPACE])] + rest && cs[1..][1..] == rest;
    } else {
      assert Chunks(charset, ws)[1..] == [];
    }
  }

  /** The spaces between the words disappear. */
  lemma {:induction false} ChunksShown(charset: Text, ws: seq<Text>, afterWord: bool)
    requires ws != []
    ensures HS.Shown(afterWord, Chunks(charset, ws)) == Flatten(ws)
    decreases ws
  {
    hide WordForm, BWord;
    var cs := Chunks(charset, ws);
    if |ws| > 1 {
      ChunksShown(charset, ws[1..], false);
      var rest := Chunks(charset, ws[1..]);
      assert cs[1..] == [HS.Plain([SPACE])] + rest && cs[1..][1..] == rest;
      assert [] + HS.Shown(false, rest) == HS.Shown(false, rest);
    } else {
      assert cs[1..] == [];
      assert Flatten(ws) == ws[0] + Flatten([]);
    }
  }

  lemma WordIsOk(d: Decoder, charset: Text, w: Text)
    requires IsUtf8(charset)
    ensures HS.ChunkOk(d, HS.Encoded(BWord(charset, w), w))
  {
    hide B64.Encoded;
    NoQuestionInCharset(charset);
    NoQuestionIn(w);
    B64.DecodedOfEncoded(w);
  }

  /** Decoding what the B encoding gives for s gives s back, for every byte string and every
      decoder. */
  lemma BRoundTrip(d: Decoder, charset: Text, s: Text)
    requires IsUtf8(charset)
    ensures Decoded(d, BText(charset, Split(charset, s))) == Some(s)
  {
    hide IsUtf8, BText, Decoded, Chunks, HS.ChunksText, HS.ChunksOk, HS.Shown;
    var ws := Split(charset, s);
    BWordsAre([], s);
    assert [] + s == s && Flatten([s]) == s + Flatten([]) == s;
    ChunksOkay(d, charset, ws);
    ChunksWritten(charset, ws);
    ChunksShown(charset, ws, false);
    HS.DecodedHeader(d, Chunks(charset, ws));
  }

  /** Line 35: Encode */
  function Encode(charset: Text, s: Text): Text {
    if MT.NeedsEncoding(s) then BText(charset, Split(charset, s)) else s
  }

  /** As for the Q encoding, s comes back exactly if it was encoded or no part of it can be
      taken for an encoded word itself. */
  lemma BEncodeRoundTrip(d: Decoder, charset: Text, s: Text)
    requires IsUtf8(charset) && ShortAscii(d)
    ensures var i := IndexPair(s, EQUALS, QUESTION);
      Decoded(d, Encode(charset, s)) == Some(s) <==> MT.NeedsEncoding(s) || i == -1 || NoWord(s[i..])
  {
    hide IsUtf8, Decoded, NoWord, BText, Split, MT.NeedsEncoding, ShortAscii;
    if MT.NeedsEncoding(s) {
      BRoundTrip(d, charset, s);
    } else {
      PlainIsAscii(s);
      AsciiRoundTrip(d, s);
    }
  }
}
