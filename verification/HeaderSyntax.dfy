/** What DecodeHeader makes of any header: text, encoded words, words that cannot be decoded,
    and words in a charset that cannot be converted. */
module HeaderSyntax {
  import opened Common
  import opened Utf8
  import opened EncodedWord
  import MT = MediaType
  import Syntax = MediaSyntax

  // ----- Q encoding -----

  /** e is d in the Q encoding (section 4.2 of RFC 2047): a space may be an underscore, any byte
      may be "=" and two hexadecimal digits, and what is left as it is can be printed or is
      white space. */
  ghost predicate QCodes(e: Text, d: Text)
    decreases d
  {
    if d == [] then e == []
    else
      || (e != [] && e[0] == UNDERSCORE && d[0] == SPACE && QCodes(e[1..], d[1..]))
      || (|e| >= 3 && e[0] == EQUALS && Syntax.IsDigit(e[1], d[0] / 16) && Syntax.IsDigit(e[2], d[0] % 16) && QCodes(e[3..], d[1..]))
      || (e != [] && IsAccepted(e[0]) && e[0] != UNDERSCORE && e[0] != EQUALS && e[0] == d[0] && QCodes(e[1..], d[1..]))
  }

  /** qDecode gives d exactly for what encodes d, and fails for what encodes nothing. */
  lemma {:induction false} QDecodedIff(e: Text, d: Text)
    ensures QDecoded(e) == Some(d) <==> QCodes(e, d)
    decreases |e|
  {
    hide MT.IsHex, MT.Unhex, Syntax.IsDigit, IsAccepted;
    if e != [] {
      if e[0] == EQUALS {
        if |e| >= 3 {
          Syntax.DigitValue(e[1]);
          Syntax.DigitValue(e[2]);
          if d != [] {
            QDecodedIff(e[3..], d[1..]);
            assert d == [d[0]] + d[1..];
            Syntax.TwoDigits(e[1], e[2], d[0]);
          }
        }
      } else if d != [] {
        QDecodedIff(e[1..], d[1..]);
        assert d == [d[0]] + d[1..];
      }
    }
  }

  // ----- charsets -----

  /** The characters of a text. */
  function Runes(s: Text): seq<int>
    decreases |s|
  {
    if s == [] then [] else [RuneAt(s)] + Runes(s[RuneLen(s)..])
  }

  lemma RunesCons(r: int, tail: Text)
    requires IsRune(r)
    ensures Runes(EncodeRune(r) + tail) == [r] + Runes(tail)
  {
    hide EncodeRune, RuneAt, RuneLen;
    var s := EncodeRune(r) + tail;
    DecodeOfEncode(r, tail);
    assert s[|EncodeRune(r)|..] == tail;
  }

  /** In iso-8859-1 every byte is the character of that number. */
  lemma {:induction false} Latin1Runes(content: Text)
    ensures |Runes(Latin1(content))| == |content| && forall k | 0 <= k < |content| :: Runes(Latin1(content))[k] == content[k]
    decreases content
  {
    hide EncodeRune, Runes;
    if content == [] {
      NoRunes();
    } else {
      Latin1Runes(content[1..]);
      RunesCons(content[0], Latin1(content[1..]));
    }
  }

  lemma NoRunes()
    ensures Runes([]) == []
  {
  }

  /** In us-ascii a byte beyond ASCII is no character. */
  lemma {:induction false} ReplacedRunes(content: Text)
    ensures |Runes(Replaced(content))| == |content|
    ensures forall k | 0 <= k < |content| :: Runes(Replaced(content))[k] == if content[k] < 0x80 then content[k] else RUNE_ERROR
    decreases content
  {
    hide EncodeRune, Runes;
    if content == [] {
      NoRunes();
    } else {
      var c := content[0];
      ReplacedRunes(content[1..]);
      FirstBytes(c);
      RunesCons(if c < 0x80 then c else RUNE_ERROR, Replaced(content[1..]));
    }
  }

  lemma {:induction false} FoldedAscii(s: Text)
    requires MT.IsAscii(s)
    ensures Folded(s) == MT.LowerAscii(s)
    decreases s
  {
    if s != [] { FoldedAscii(s[1..]); }
  }

  /** Line 325: the charsets known, in whatever case, and for all others the client's own reader,
      which is asked in lower case. */
  lemma ConvertIs(d: Decoder, charset: Text, content: Text)
    requires MT.IsAscii(charset)
    ensures var low := MT.LowerAscii(charset); var r := Convert(d, charset, content);
      && (low == MT.CHARSET ==> r == Some(content))
      && (low == ISO_8859_1 ==> r == Some(Latin1(content)))
      && (low == MT.US_ASCII ==> r == Some(Replaced(content)))
      && (low !in [MT.CHARSET, ISO_8859_1, MT.US_ASCII] ==>
            r == if d.charsetReader.Some? then d.charsetReader.value(low, content) else None)
  {
    hide Folded, Latin1, Replaced, MT.LowerAscii;
    FoldedAscii(charset);
    assert MT.CHARSET != ISO_8859_1 && MT.CHARSET != MT.US_ASCII && ISO_8859_1 != MT.US_ASCII;
  }

  // ----- headers -----

  /** Text in which no word begins, a word with what it stands for, a word that cannot be
      decoded, and one whose charset cannot be converted. */
  datatype Chunk = Plain(t: Text) | Encoded(w: Word, out: Text) | Broken(w: Word) | Failing(w: Word)

  function ChunkText(c: Chunk): Text { if c.Plain? then c.t else WordForm(c.w) }

  function ChunksText(cs: seq<Chunk>): Text { if cs == [] then [] else ChunkText(cs[0]) + ChunksText(cs[1..]) }

  /** No "=?". */
  predicate NoOpen(s: Text) { forall k | 0 <= k < |s| - 1 :: !(s[k] == EQUALS && s[k + 1] == QUESTION) }

  /** No "?=". */
  predicate NoClose(s: Text) { forall k | 0 <= k < |s| - 1 :: !(s[k] == QUESTION && s[k + 1] == EQUALS) }

  /** A word from its charset on. */
  function Inner(w: Word): Text { w.charset + ([QUESTION, w.encoding, QUESTION] + (w.text + CLOSE)) }

  predicate ChunkOk(d: Decoder, c: Chunk) {
    && (c.Plain? ==> NoOpen(c.t))
    && (!c.Plain? ==> QUESTION !in c.w.charset && NoClose(c.w.text))
    && (match c
        case Plain(_) => true
        case Encoded(w, out) =>
          var content := Decode(w.encoding, w.text); content.Some? && Convert(d, w.charset, content.value) == Some(out)
        case Broken(w) => Decode(w.encoding, w.text).None? && NoOpen(Inner(w))
        case Failing(w) =>
          var content := Decode(w.encoding, w.text); content.Some? && Convert(d, w.charset, content.value).None?)
  }

  /** Pieces of text are separated by words, and no word begins where a broken one ends. */
  predicate Apart(cs: seq<Chunk>) {
    forall k | 0 <= k < |cs| - 1 && cs[k + 1].Plain? ::
      !cs[k].Plain? && (cs[k].Broken? && cs[k + 1].t != [] ==> cs[k + 1].t[0] != QUESTION)
  }

  predicate ChunksOk(d: Decoder, cs: seq<Chunk>) { Apart(cs) && forall k | 0 <= k < |cs| :: ChunkOk(d, cs[k]) }

  /** Spaces, tabs and line breaks only. */
  predicate LinearSpace(t: Text) { forall k | 0 <= k < |t| :: t[k] == 32 || t[k] == 9 || t[k] == 13 || t[k] == 10 }

  /** What should come out: words decoded, broken words as they are, and text as it is unless it
      is white space between two words that were decoded. */
  function Shown(afterWord: bool, cs: seq<Chunk>): Text
    decreases cs
  {
    if cs == [] then []
    else match cs[0]
      case Plain(t) =>
        (if afterWord && |cs| > 1 && cs[1].Encoded? && LinearSpace(t) then [] else t) + Shown(false, cs[1..])
      case Encoded(_, out) => out + Shown(true, cs[1..])
      case _ => WordForm(cs[0].w) + Shown(false, cs[1..])
  }

  lemma {:induction false} PairIff(s: Text, a: Byte, b: Byte)
    ensures IndexPair(s, a, b) == -1 <==> forall k | 0 <= k < |s| - 1 :: !(s[k] == a && s[k + 1] == b)
    decreases s
  {
    if |s| >= 2 {
      PairIff(s[1..], a, b);
      if forall k | 0 <= k < |s[1..]| - 1 :: !(s[1..][k] == a && s[1..][k + 1] == b) {
        forall k | 0 <= k < |s| - 1 && !(s[0] == a && s[1] == b)
          ensures !(s[k] == a && s[k + 1] == b)
        {
          if k > 0 { assert s[1..][k - 1] == s[k] && s[1..][k] == s[k + 1]; }
        }
      } else {
        var k :| 0 <= k < |s[1..]| - 1 && s[1..][k] == a && s[1..][k + 1] == b;
        assert s[k + 1] == a && s[k + 1 + 1] == b;
      }
    }
  }

  /** The text at the front, and what comes after it. */
  function Lead(cs: seq<Chunk>): (Text, seq<Chunk>) {
    if cs != [] && cs[0].Plain? then (cs[0].t, cs[1..]) else ([], cs)
  }

  lemma LeadText(cs: seq<Chunk>)
    ensures ChunksText(cs) == Lead(cs).0 + ChunksText(Lead(cs).1)
  {
    if !(cs != [] && cs[0].Plain?) { assert [] + ChunksText(cs) == ChunksText(cs); }
  }

  lemma LeadOk(d: Decoder, cs: seq<Chunk>)
    requires ChunksOk(d, cs)
    ensures NoOpen(Lead(cs).0) && ChunksOk(d, Lead(cs).1) && (Lead(cs).1 == [] || !Lead(cs).1[0].Plain?)
  {
    hide ChunkOk;
    if cs != [] {
      RestOk(d, cs);
      assert ChunkOk(d, cs[0]);
      if cs[0].Plain? { PlainOk(d, cs[0]); }
    }
  }

  lemma PlainOk(d: Decoder, c: Chunk)
    requires ChunkOk(d, c) && c.Plain?
    ensures NoOpen(c.t)
  {
  }

  lemma RestOk(d: Decoder, cs: seq<Chunk>)
    requires ChunksOk(d, cs) && cs != []
    ensures ChunksOk(d, cs[1..])
  {
    hide ChunkOk;
    var rest := cs[1..];
    forall k | 0 <= k < |rest| - 1 && rest[k + 1].Plain?
      ensures !rest[k].Plain? && (rest[k].Broken? && rest[k + 1].t != [] ==> rest[k + 1].t[0] != QUESTION)
    {
      assert rest[k] == cs[k + 1] && rest[k + 1] == cs[k + 1 + 1];
    }
  }

  /** Behind a word that was decoded, or within a broken one, the text p is still to come. */
  function Rest(p: Text, afterWord: bool, cs: seq<Chunk>): Text {
    (if afterWord && cs != [] && cs[0].Encoded? && LinearSpace(p) then [] else p) + Shown(false, cs)
  }

  lemma {:induction false} ShownAfter(afterWord: bool, cs: seq<Chunk>)
    ensures Shown(afterWord, cs) == Rest(Lead(cs).0, afterWord, Lead(cs).1)
  {
    hide LinearSpace;
    if cs != [] && !cs[0].Plain? {
      assert [] + Shown(false, cs) == Shown(false, cs);
    }
  }

  lemma {:induction false} NoFailingTail(cs: seq<Chunk>)
    requires cs != [] && forall c | c in cs :: !c.Failing?
    ensures forall c | c in Lead(cs[1..]).1 :: !c.Failing?
  {
  }

  lemma NothingThere(d: Decoder, p: Text, afterWord: bool)
    requires NoOpen(p)
    ensures DecodedFrom(d, p, afterWord) == Some(p)
  {
    PairIff(p, EQUALS, QUESTION);
  }

  lemma LinearIff(p: Text)
    ensures LinearSpace(p) <==> !HasNonWhitespace(p)
  {
  }

  /** A word that can be decoded. */
  lemma EncodedStep(d: Decoder, p: Text, afterWord: bool, w: Word, content: Text, tail: Text)
    requires NoOpen(p) && QUESTION !in w.charset && NoClose(w.text) && Decode(w.encoding, w.text) == Some(content)
    ensures DecodedFrom(d, p + WordForm(w) + tail, afterWord) ==
      match Convert(d, w.charset, content)
      case None => None
      case Some(out) => MT.PrependTo((if afterWord && LinearSpace(p) then [] else p) + out, DecodedFrom(d, tail, true))
  {
    hide Convert, Decode, NextCandidate, WordForm, LinearSpace, HasNonWhitespace, NoOpen, NoClose, IndexPair;
    PairIff(p, EQUALS, QUESTION);
    PairIff(w.text, QUESTION, EQUALS);
    assert IndexPair(p, EQUALS, QUESTION) == -1 by { OpenIff(p); }
    assert IndexPair(w.text, QUESTION, EQUALS) == -1 by { CloseIff(w.text); }
    WordFound(p, w, tail);
    LinearIff(p);
    var h := p + WordForm(w) + tail;
    assert h[..|p|] == p && h[|p| + |WordForm(w)|..] == tail;
  }

  lemma OpenIff(p: Text)
    ensures NoOpen(p) <==> IndexPair(p, EQUALS, QUESTION) == -1
  {
    PairIff(p, EQUALS, QUESTION);
  }

  lemma CloseIff(p: Text)
    ensures NoClose(p) <==> IndexPair(p, QUESTION, EQUALS) == -1
  {
    PairIff(p, QUESTION, EQUALS);
  }

  /** A word that cannot: its "=?" is text, and reading goes on behind it. */
  lemma BrokenStep(d: Decoder, p: Text, afterWord: bool, w: Word, tail: Text)
    requires NoOpen(p) && QUESTION !in w.charset && NoClose(w.text) && Decode(w.encoding, w.text).None?
    ensures DecodedFrom(d, p + WordForm(w) + tail, afterWord)
      == MT.PrependTo(p + [EQUALS, QUESTION], DecodedFrom(d, Inner(w) + tail, false))
  {
    hide Convert, Decode, NextCandidate, WordForm, NoOpen, NoClose, IndexPair, Inner;
    OpenIff(p);
    CloseIff(w.text);
    WordFound(p, w, tail);
    var h := p + WordForm(w) + tail;
    InnerText(w);
    assert h == (p + [EQUALS, QUESTION]) + (Inner(w) + tail);
    assert h[..|p| + 2] == p + [EQUALS, QUESTION] && h[|p| + 2..] == Inner(w) + tail;
  }

  lemma InnerText(w: Word)
    ensures WordForm(w) == [EQUALS, QUESTION] + Inner(w)
  {
  }

  lemma JoinOpen(a: Text, b: Text)
    requires NoOpen(a) && NoOpen(b) && (a != [] && b != [] && a[|a| - 1] == EQUALS ==> b[0] != QUESTION)
    ensures NoOpen(a + b)
  {
  }

  lemma InnerEnds(w: Word)
    ensures Inner(w) != [] && Inner(w)[|Inner(w)| - 1] == EQUALS
  {
  }

  lemma {:induction false} DecodedChunks(d: Decoder, p: Text, afterWord: bool, cs: seq<Chunk>)
    requires NoOpen(p) && ChunksOk(d, cs) && (cs == [] || !cs[0].Plain?) && forall c | c in cs :: !c.Failing?
    ensures DecodedFrom(d, p + ChunksText(cs), afterWord) == Some(Rest(p, afterWord, cs))
    decreases |cs|
  {
    hide Convert, Decode, NextCandidate, DecodedFrom, WordForm, LinearSpace, NoOpen, NoClose, Inner;
    if cs == [] {
      assert p + [] == p;
      NothingThere(d, p, afterWord);
    } else {
      var w, rest := cs[0].w, cs[1..];
      var lead := Lead(rest);
      assert ChunkOk(d, cs[0]);
      RestOk(d, cs);
      LeadText(rest);
      LeadOk(d, rest);
      NoFailingTail(cs);
      Assoc(p, WordForm(w), ChunksText(rest));
      if cs[0].Encoded? {
        EncodedStep(d, p, afterWord, w, Decode(w.encoding, w.text).value, ChunksText(rest));
        DecodedChunks(d, lead.0, true, lead.1);
        ShownAfter(true, rest);
        var front := if afterWord && LinearSpace(p) then [] else p;
        Assoc(front, cs[0].out, Shown(true, rest));
      } else {
        BrokenStep(d, p, afterWord, w, ChunksText(rest));
        Assoc(Inner(w), lead.0, ChunksText(lead.1));
        InnerLead(d, cs);
        DecodedChunks(d, Inner(w) + lead.0, false, lead.1);
        ShownAfter(false, rest);
        InnerText(w);
        BrokenShown(p, Inner(w), lead.0, Shown(false, lead.1));
      }
    }
  }

  lemma InnerLead(d: Decoder, cs: seq<Chunk>)
    requires ChunksOk(d, cs) && cs != [] && cs[0].Broken?
    ensures NoOpen(Inner(cs[0].w) + Lead(cs[1..]).0)
  {
    hide NoOpen, Inner;
    var w := cs[0].w;
    assert ChunkOk(d, cs[0]);
    RestOk(d, cs);
    LeadOk(d, cs[1..]);
    InnerEnds(w);
    if |cs| > 1 && cs[1].Plain? { assert cs[0 + 1].Plain?; }
    JoinOpen(Inner(w), Lead(cs[1..]).0);
  }

  lemma BrokenShown(p: Text, inner: Text, t: Text, shown: Text)
    ensures p + [EQUALS, QUESTION] + ((inner + t) + shown) == p + ([EQUALS, QUESTION] + inner + (t + shown))
  {
  }

  /** Line 240: words are decoded, text is kept, except that white space between two words is
      dropped, and what is no word stays as it is. */
  lemma DecodedHeader(d: Decoder, cs: seq<Chunk>)
    requires ChunksOk(d, cs) && forall c | c in cs :: !c.Failing?
    ensures Decoded(d, ChunksText(cs)) == Some(Shown(false, cs))
  {
    hide Convert, Decode, NextCandidate, DecodedFrom, WordForm, LinearSpace, NoOpen, ChunksText, Shown, Rest, ChunkOk;
    var lead := Lead(cs);
    LeadText(cs);
    LeadOk(d, cs);
    ShownAfter(false, cs);
    if lead.1 == [] {
      PlainHeader(d, lead.0);
    } else {
      HeaderStart(d, lead.0, lead.1);
      assert NoOpen([]) by { OpenIff([]); }
      DecodedChunks(d, [], false, lead.1);
      assert [] + ChunksText(lead.1) == ChunksText(lead.1);
      RestStart(lead.0, lead.1);
    }
  }

  lemma PlainHeader(d: Decoder, p: Text)
    requires NoOpen(p)
    ensures Decoded(d, p + ChunksText([])) == Some(Rest(p, false, []))
  {
    OpenIff(p);
    assert p + [] == p;
  }

  lemma RestStart(p: Text, cs: seq<Chunk>)
    ensures MT.PrependTo(p, Some(Rest([], false, cs))) == Some(Rest(p, false, cs))
  {
    assert [] + Shown(false, cs) == Shown(false, cs);
  }

  lemma HeaderStart(d: Decoder, p: Text, cs: seq<Chunk>)
    requires NoOpen(p) && cs != [] && !cs[0].Plain?
    ensures Decoded(d, p + ChunksText(cs)) == MT.PrependTo(p, DecodedFrom(d, ChunksText(cs), false))
  {
    hide DecodedFrom, NoOpen, IndexPair;
    OpenIff(p);
    var w := cs[0].w;
    var tail := Inner(w) + ChunksText(cs[1..]);
    assert ChunksText(cs) == [EQUALS, QUESTION] + tail;
    assert p + ChunksText(cs) == p + [EQUALS, QUESTION] + tail;
    IndexPairIs(p, EQUALS, QUESTION, tail);
    assert (p + ChunksText(cs))[|p|..] == ChunksText(cs) && (p + ChunksText(cs))[..|p|] == p;
  }

  lemma {:induction false} FailingChunks(d: Decoder, p: Text, afterWord: bool, cs: seq<Chunk>)
    requires NoOpen(p) && ChunksOk(d, cs) && (cs == [] || !cs[0].Plain?) && exists c :: c in cs && c.Failing?
    ensures DecodedFrom(d, p + ChunksText(cs), afterWord) == None
    decreases |cs|
  {
    hide Convert, Decode, NextCandidate, DecodedFrom, WordForm, LinearSpace, NoOpen, NoClose, Inner;
    var w, rest := cs[0].w, cs[1..];
    var lead := Lead(rest);
    assert ChunkOk(d, cs[0]);
    assert cs == [cs[0]] + rest;
    RestOk(d, cs);
    LeadText(rest);
    LeadOk(d, rest);
    Assoc(p, WordForm(w), ChunksText(rest));
    if cs[0].Broken? {
      BrokenStep(d, p, afterWord, w, ChunksText(rest));
      Assoc(Inner(w), lead.0, ChunksText(lead.1));
      InnerLead(d, cs);
      FailingTail(rest);
      FailingChunks(d, Inner(w) + lead.0, false, lead.1);
    } else {
      EncodedStep(d, p, afterWord, w, Decode(w.encoding, w.text).value, ChunksText(rest));
      if cs[0].Encoded? {
        FailingTail(rest);
        FailingChunks(d, lead.0, true, lead.1);
      }
    }
  }

  lemma FailingTail(cs: seq<Chunk>)
    requires exists c :: c in cs && c.Failing?
    ensures exists c :: c in Lead(cs).1 && c.Failing?
  {
    var c :| c in cs && c.Failing?;
    assert cs == [cs[0]] + cs[1..];
    assert c in Lead(cs).1;
  }

  /** There is an error if and only if the charset of some word cannot be converted. */
  lemma HeaderErrorIff(d: Decoder, cs: seq<Chunk>)
    requires ChunksOk(d, cs)
    ensures Decoded(d, ChunksText(cs)) == None <==> exists c :: c in cs && c.Failing?
  {
    hide Convert, Decode, NextCandidate, DecodedFrom, WordForm, NoOpen, ChunksText, Shown, ChunkOk;
    if exists c :: c in cs && c.Failing? {
      var lead := Lead(cs);
      LeadText(cs);
      LeadOk(d, cs);
      FailingTail(cs);
      HeaderStart(d, lead.0, lead.1);
      assert [] + ChunksText(lead.1) == ChunksText(lead.1);
      assert NoOpen([]) by { OpenIff([]); }
      FailingChunks(d, [], false, lead.1);
    } else {
      DecodedHeader(d, cs);
    }
  }

  /** What begins like a word and does not end like one is text, and so is everything behind it:
      no charset, or no encoding, or nothing that closes it (lines 261-279). */
  lemma Unterminated(d: Decoder, p: Text, charset: Text, rest: Text)
    requires NoOpen(p) && QUESTION !in charset
    ensures var h := p + [EQUALS, QUESTION] + charset; Decoded(d, h) == Some(h)
    ensures var h := p + [EQUALS, QUESTION] + charset + [QUESTION] + rest;
      |rest| < 4 || rest[1] != QUESTION || NoClose(rest[2..]) ==> Decoded(d, h) == Some(h)
  {
    hide NoOpen, NoClose, IndexPair, IndexByte, DecodedFrom;
    OpenIff(p);
    var open: Text := [EQUALS, QUESTION];
    IndexPairIs(p, EQUALS, QUESTION, charset);
    Unopened(charset);
    assert p + open + charset == p + (open + charset);
    Unread(d, p, open + charset);
    if |rest| < 4 || rest[1] != QUESTION || NoClose(rest[2..]) {
      var tail := charset + ([QUESTION] + rest);
      assert p + open + charset + [QUESTION] + rest == p + open + tail;
      assert p + open + tail == p + (open + tail);
      IndexPairIs(p, EQUALS, QUESTION, tail);
      Unclosed(charset, rest);
      Unread(d, p, open + tail);
    }
  }

  lemma Unread(d: Decoder, p: Text, tail: Text)
    requires IndexPair(p + tail, EQUALS, QUESTION) == |p| && NextCandidate(tail) == None
    ensures Decoded(d, p + tail) == Some(p + tail)
  {
    hide NextCandidate, IndexPair;
    assert (p + tail)[|p|..] == tail && (p + tail)[..|p|] == p;
  }

  lemma Unopened(charset: Text)
    requires QUESTION !in charset
    ensures NextCandidate([EQUALS, QUESTION] + charset) == None
  {
    hide IndexPair, IndexByte;
    var h := [EQUALS, QUESTION] + charset;
    IndexPairIs([], EQUALS, QUESTION, charset);
    assert [] + [EQUALS, QUESTION] + charset == h;
    assert IndexPair([], EQUALS, QUESTION) == -1 by { OpenIff([]); }
    assert h[2..] == charset;
    IndexByteSpec(charset, QUESTION);
  }

  lemma Unclosed(charset: Text, rest: Text)
    requires QUESTION !in charset && (|rest| < 4 || rest[1] != QUESTION || NoClose(rest[2..]))
    ensures NextCandidate([EQUALS, QUESTION] + (charset + ([QUESTION] + rest))) == None
  {
    hide IndexPair, IndexByte, NoClose;
    var tail := charset + ([QUESTION] + rest);
    var h := [EQUALS, QUESTION] + tail;
    assert IndexPair([], EQUALS, QUESTION) == -1 by { OpenIff([]); }
    IndexPairIs([], EQUALS, QUESTION, tail);
    assert [] + [EQUALS, QUESTION] + tail == h;
    assert h[2..] == tail && tail[..|charset|] == charset && tail[|charset|] == QUESTION;
    IndexByteUnique(tail, QUESTION, |charset|);
    var mark := 2 + |charset|;
    assert h[mark + 1..] == rest;
    if |rest| >= 4 && rest[1] == QUESTION {
      CloseIff(rest[2..]);
      assert h[mark + 3..] == rest[2..];
    }
  }
}
