/** bufio.ScanWords: a split function that decodes UTF-8 in data that may end in the
    middle of a character. */
module WordScanner {
  import opened Common
  import opened Utf8
  import S = Scanner

  /** Line 386: isSpace */
  predicate IsSpace(r: int) {
    if r <= 0xFF then 9 <= r <= 13 || r == 32 || r == 0x85 || r == 0xA0
    else 0x2000 <= r <= 0x200A || r == 0x1680 || r == 0x2028 || r == 0x2029 || r == 0x202F || r == 0x205F || r == 0x3000
  }

  predicate SpaceFirst(s: seq<Byte>)
    requires s != []
  {
    IsSpace(RuneAt(s))
  }

  /** Bytes of white space at the front. */
  function Skip(s: seq<Byte>): (n: nat)
    ensures n <= |s|
    decreases |s|
  {
    if s == [] || !SpaceFirst(s) then 0 else RuneLen(s) + Skip(s[RuneLen(s)..])
  }

  /** Where the first white space begins, -1 if there is none. */
  function FirstSpace(s: seq<Byte>): (i: int)
    ensures -1 <= i < |s|
    decreases |s|
  {
    if s == [] then -1
    else if SpaceFirst(s) then 0
    else
      var i := FirstSpace(s[RuneLen(s)..]);
      if i < 0 then -1 else RuneLen(s) + i
  }

  lemma {:induction false} SkipsAll(s: seq<Byte>)
    ensures Skip(s) < |s| ==> !SpaceFirst(s[Skip(s)..])
    decreases |s|
  {
    hide RuneLen, SpaceFirst;
    if s != [] && SpaceFirst(s) {
      var rest := s[RuneLen(s)..];
      SkipsAll(rest);
      assert rest[Skip(rest)..] == s[Skip(s)..];
    } else {
      assert s[0..] == s;
    }
  }

  lemma {:induction false} SpaceFound(s: seq<Byte>)
    requires FirstSpace(s) >= 0
    ensures SpaceFirst(s[FirstSpace(s)..])
    decreases |s|
  {
    hide RuneLen, SpaceFirst;
    if SpaceFirst(s) {
      assert s[0..] == s;
    } else {
      var rest := s[RuneLen(s)..];
      SpaceFound(rest);
      assert rest[FirstSpace(rest)..] == s[FirstSpace(s)..];
    }
  }

  /** What ScanWords answers: white space at the front is skipped, and then the first word
      given once the white space behind it is there or nothing more will come. */
  function ScanWords(data: seq<Byte>, atEOF: bool): S.Split {
    S.Shift(Skip(data), FirstWord(data[Skip(data)..], atEOF))
  }

  function FirstWord(s: seq<Byte>, atEOF: bool): S.Split {
    var i := FirstSpace(s);
    if i >= 0 then S.Split(i + RuneLen(s[i..]), Some(s[..i]), None)
    else if atEOF && s != [] then S.Split(|s|, Some(s), None)
    else S.Split(0, None, None)
  }

  /** Line 413: the two loops of ScanWords. */
  method SplitWords(data: seq<Byte>, atEOF: bool) returns (r: S.Split)
    ensures r == ScanWords(data, atEOF)
  {
    hide RuneLen, SpaceFirst, Skip, FirstSpace;
    var start := 0;
    assert data[0..] == data;
    while start < |data|
      invariant start <= |data| && Skip(data) == start + Skip(data[start..])
      decreases |data| - start
    {
      RuneStep(data, start);
      if !SpaceFirst(data[start..]) {
        break;
      }
      start := start + RuneLen(data[start..]);
    }
    NothingLeft(data, start);
    var i := FindSpace(data, start);
    ghost var rest := data[start..];
    if i >= 0 {
      DropTwice(data, start, i - start);
      assert rest[..i - start] == data[start..i];
      return S.Split(i + RuneLen(data[i..]), Some(data[start..i]), None);
    }
    if atEOF && |data| > start {
      return S.Split(|data|, Some(data[start..]), None);
    }
    return S.Split(start, None, None);
  }

  /** Lines 425-431: the end of the word that begins at start. */
  method FindSpace(data: seq<Byte>, start: nat) returns (i: int)
    requires start <= |data|
    ensures var o := FirstSpace(data[start..]); i == if o < 0 then -1 else start + o
  {
    hide RuneLen, SpaceFirst, FirstSpace;
    i := start;
    while i < |data|
      invariant start <= i <= |data|
      invariant var o := FirstSpace(data[i..]);
        FirstSpace(data[start..]) == if o < 0 then -1 else i - start + o
      decreases |data| - i
    {
      RuneStep(data, i);
      if SpaceFirst(data[i..]) {
        return i;
      }
      i := i + RuneLen(data[i..]);
    }
    NothingLeft(data, i);
    return -1;
  }

  /** One turn of either loop. */
  lemma RuneStep(data: seq<Byte>, i: nat)
    requires i < |data|
    ensures var s := data[i..]; var n := RuneLen(s);
      && 1 <= n && i + n <= |data|
      && Skip(s) == (if SpaceFirst(s) then n + Skip(data[i + n..]) else 0)
      && FirstSpace(s) == (if SpaceFirst(s) then 0 else var o := FirstSpace(data[i + n..]); if o < 0 then -1 else n + o)
  {
    hide RuneLen, SpaceFirst;
    DropTwice(data, i, RuneLen(data[i..]));
  }

  lemma NothingLeft(data: seq<Byte>, i: nat)
    requires i <= |data|
    ensures i == |data| ==> Skip(data[i..]) == 0 && FirstSpace(data[i..]) == -1
  {
  }

  lemma DropTwice(s: seq<Byte>, a: nat, b: nat)
    requires a + b <= |s|
    ensures s[a..][b..] == s[a + b..]
  {
  }

  // ----- data cut in the middle of a character -----

  lemma NoStart(s: seq<Byte>)
    requires s != [] && Continues(s[0])
    ensures RuneLen(s) == 1 && !SpaceFirst(s)
  {
  }

  /** Continuation bytes on their own are no characters, hence no white space. */
  lemma {:induction false} ContinuationNoSpace(s: seq<Byte>)
    requires forall k | 0 <= k < |s| :: Continues(s[k])
    ensures FirstSpace(s) == -1
    decreases |s|
  {
    if s != [] {
      NoStart(s);
      hide RuneLen, SpaceFirst;
      ContinuationNoSpace(s[1..]);
    }
  }

  /** The front of a text is read the same when more is added, unless it is the front of
      a character that is cut off, and then no white space is in sight. */
  lemma FrontOrCut(s: seq<Byte>, tail: seq<Byte>)
    requires s != []
    ensures (RuneLen(s + tail) == RuneLen(s) && RuneAt(s + tail) == RuneAt(s)) || FirstSpace(s) == -1
  {
    if RuneLen(s + tail) != RuneLen(s) {
      assert RuneLen(s) == 1 && !SpaceFirst(s) && |s| < RuneLen(s + tail);
      forall k | 1 <= k < |s|
        ensures Continues(s[k])
      {
        assert s[k] == (s + tail)[k];
      }
      ContinuationNoSpace(s[1..]);
    }
  }

  /** White space is recognised as such whatever follows. */
  lemma SpaceStays(s: seq<Byte>, tail: seq<Byte>)
    requires s != [] && SpaceFirst(s)
    ensures RuneLen(s + tail) == RuneLen(s) && SpaceFirst(s + tail)
  {
    FrontOrCut(s, tail);
  }

  lemma {:induction false} SkipPrefix(s: seq<Byte>, tail: seq<Byte>)
    ensures Skip(s + tail) == Skip(s) + Skip(s[Skip(s)..] + tail)
    decreases |s|
  {
    hide RuneLen, SpaceFirst;
    if s != [] && SpaceFirst(s) {
      SpaceStays(s, tail);
      var n := RuneLen(s);
      var s1 := s[n..];
      assert (s + tail)[n..] == s1 + tail;
      SkipPrefix(s1, tail);
      assert s1[Skip(s1)..] == s[Skip(s)..];
    } else {
      assert s[0..] == s;
    }
  }

  lemma {:induction false} FirstSpacePrefix(s: seq<Byte>, tail: seq<Byte>)
    requires FirstSpace(s) >= 0
    ensures FirstSpace(s + tail) == FirstSpace(s)
    decreases |s|
  {
    hide RuneLen, RuneAt, IsSpace;
    FrontOrCut(s, tail);
    if !SpaceFirst(s) {
      var n := RuneLen(s);
      assert (s + tail)[n..] == s[n..] + tail;
      FirstSpacePrefix(s[n..], tail);
    }
  }

  /** A word found in a prefix is the word found in any extension, and skipping white
      space first makes no difference. */
  lemma ScanWordsCoherent()
    ensures S.Coherent(ScanWords)
  {
    hide RuneLen, SpaceFirst, Skip, FirstSpace, ScanWords;
    forall data: seq<Byte>, rest: seq<Byte>, eof: bool
      ensures S.CoherentOn(ScanWords, data, rest, eof)
    {
      WordBounds(data);
      if ScanWords(data, false).token.Some? {
        WordStands(data, rest, eof);
      } else {
        SkippedFirst(data, rest, eof);
      }
    }
  }

  lemma WordBounds(data: seq<Byte>)
    ensures var a := ScanWords(data, false); a.err.None? && 0 <= a.advance <= |data| && (a.token.None? ==> a.advance == Skip(data))
    ensures var a := ScanWords(data, true);
      && S.Advances(a, |data|)
      && (a.token.Some? ==> a.token.value != [])
      && (a.token.None? <==> Skip(data) == |data|)
  {
    hide SpaceFirst, RuneLen, Skip, FirstSpace;
    var w := data[Skip(data)..];
    SkipsAll(data);
    if w != [] { WordNotEmpty(w); }
  }

  lemma WordNotEmpty(w: seq<Byte>)
    requires w != [] && !SpaceFirst(w)
    ensures FirstSpace(w) != 0
  {
  }

  lemma WordStands(data: seq<Byte>, rest: seq<Byte>, eof: bool)
    requires ScanWords(data, false).token.Some?
    ensures ScanWords(data + rest, eof) == ScanWords(data, false)
  {
    hide SpaceFirst, RuneLen, Skip, FirstSpace;
    var w := data[Skip(data)..];
    SkipsAll(data);
    SkipPrefix(data, rest);
    NotAtFront(w, rest);
    assert (data + rest)[Skip(data)..] == w + rest;
    SameWord(w, rest, eof);
  }

  lemma SameWord(w: seq<Byte>, rest: seq<Byte>, eof: bool)
    requires FirstSpace(w) >= 0
    ensures FirstWord(w + rest, eof) == FirstWord(w, false)
  {
    hide SpaceFirst, RuneLen, FirstSpace;
    var i := FirstSpace(w);
    FirstSpacePrefix(w, rest);
    SpaceFound(w);
    assert (w + rest)[i..] == w[i..] + rest && (w + rest)[..i] == w[..i];
    SpaceStays(w[i..], rest);
  }

  lemma NotAtFront(w: seq<Byte>, rest: seq<Byte>)
    requires w != [] && !SpaceFirst(w) && FirstSpace(w) >= 0
    ensures Skip(w + rest) == 0
  {
    hide RuneLen, RuneAt, IsSpace;
    FrontOrCut(w, rest);
  }

  lemma SkippedFirst(data: seq<Byte>, rest: seq<Byte>, eof: bool)
    ensures ScanWords(data + rest, eof) == S.Shift(Skip(data), ScanWords(data[Skip(data)..] + rest, eof))
  {
    hide Skip, ScanWords, S.Shift;
    SkipPrefix(data, rest);
    DropConcat(data, rest, Skip(data));
    SkipInSteps(data + rest, Skip(data), eof);
  }

  /** Leading white space may be skipped in two steps. */
  lemma SkipInSteps(s: seq<Byte>, k: nat, eof: bool)
    requires k <= |s| && Skip(s) == k + Skip(s[k..])
    ensures ScanWords(s, eof) == S.Shift(k, ScanWords(s[k..], eof))
  {
    hide SpaceFirst, RuneLen, Skip, FirstSpace, FirstWord, S.Shift;
    var w := s[k..];
    DropTwice(s, k, Skip(w));
    ShiftTwice(k, Skip(w), FirstWord(w[Skip(w)..], eof));
  }

  lemma DropConcat(s: seq<Byte>, tail: seq<Byte>, n: nat)
    requires n <= |s|
    ensures (s + tail)[n..] == s[n..] + tail
  {
  }

  lemma ShiftTwice(a: int, b: int, x: S.Split)
    ensures S.Shift(a, S.Shift(b, x)) == S.Shift(a + b, x)
  {
  }

  // ----- the words of a text -----

  /** The words of a text: cut at every white space character, with what is empty left
      out. cur is the word begun. */
  function WordsFrom(cur: seq<Byte>, s: seq<Byte>): seq<seq<Byte>>
    decreases |s|
  {
    if s == [] then Begun(cur)
    else
      var n := RuneLen(s);
      if SpaceFirst(s) then Begun(cur) + WordsFrom([], s[n..]) else WordsFrom(cur + s[..n], s[n..])
  }

  function Begun(cur: seq<Byte>): seq<seq<Byte>> { if cur == [] then [] else [cur] }

  function Words(s: seq<Byte>): seq<seq<Byte>> { WordsFrom([], s) }

  lemma {:induction false} WordsSkip(s: seq<Byte>)
    ensures Words(s) == Words(s[Skip(s)..])
    decreases |s|
  {
    hide RuneLen, SpaceFirst;
    if s != [] && SpaceFirst(s) {
      var rest := s[RuneLen(s)..];
      WordsSkip(rest);
      assert rest[Skip(rest)..] == s[Skip(s)..];
    } else {
      assert s[0..] == s;
    }
  }

  lemma {:induction false} WordsCut(cur: seq<Byte>, s: seq<Byte>)
    ensures var i := FirstSpace(s);
      WordsFrom(cur, s) == if i < 0 then Begun(cur + s) else Begun(cur + s[..i]) + Words(s[i + RuneLen(s[i..])..])
    decreases |s|
  {
    hide RuneLen, SpaceFirst, FirstSpace, WordsFrom, Begun;
    WordsFromStep(cur, s);
    assert s[0..] == s && cur + s[..0] == cur;
    if s != [] && !SpaceFirst(s) {
      var n := RuneLen(s);
      var rest := s[n..];
      WordsCut(cur + s[..n], rest);
      var i := FirstSpace(rest);
      if i < 0 {
        assert cur + s[..n] + rest == cur + s;
      } else {
        DropTwice(s, n, i);
        assert cur + s[..n] + rest[..i] == cur + s[..n + i];
        DropTwice(s, n, i + RuneLen(rest[i..]));
      }
    }
  }

  lemma WordsFromStep(cur: seq<Byte>, s: seq<Byte>)
    ensures s == [] ==> WordsFrom(cur, s) == Begun(cur) == Begun(cur + s) && FirstSpace(s) == -1
    ensures s != [] ==> var n := RuneLen(s); var o := FirstSpace(s[n..]);
      if SpaceFirst(s) then WordsFrom(cur, s) == Begun(cur) + Words(s[n..]) && FirstSpace(s) == 0
      else WordsFrom(cur, s) == WordsFrom(cur + s[..n], s[n..]) && FirstSpace(s) == if o < 0 then -1 else n + o
  {
    hide RuneLen, SpaceFirst;
    assert cur + [] == cur;
  }

  lemma NoWords()
    ensures Words([]) == []
  {
  }

  /** What ScanWords takes from a text at its end is its first word. */
  lemma WordsStep(u: seq<Byte>)
    ensures var a := ScanWords(u, true);
      if a.token.Some? then 0 < a.advance <= |u| && Words(u) == [a.token.value] + Words(u[a.advance..]) else Words(u) == []
  {
    hide RuneLen, SpaceFirst, Skip, FirstSpace, WordsFrom;
    WordBounds(u);
    WordsSkip(u);
    var w := u[Skip(u)..];
    WordsCut([], w);
    assert [] + w == w;
    var i := FirstSpace(w);
    NoWords();
    if i >= 0 {
      assert [] + w[..i] == w[..i];
      DropTwice(u, Skip(u), i + RuneLen(w[i..]));
    } else if w != [] {
      assert u[|u|..] == [];
    }
  }

  // ----- scanning words -----

  /** Even the widest white space character, of 3 bytes, fits into the buffer behind any
      word. */
  predicate ShortWords(s: seq<Byte>, max: int) { forall k | 0 <= k < |Words(s)| :: |Words(s)[k]| + 3 <= max }

  /** For every reader that keeps its contract, however it cuts the text and its characters,
      the tokens are exactly the words. */
  method ScanAllWords(s: S.Scanner) returns (words: seq<seq<Byte>>)
    requires s.Valid() && !s.done && s.split == ScanWords && 3 <= s.maxTokenSize <= S.MAX_INT / 2
    requires S.Behaves(s.r.script) && ShortWords(s.Unread(), s.maxTokenSize)
    modifies s, s.buf, s.r
    ensures words == Words(old(s.Unread()))
    ensures s.Err() == if old(s.Final()) == S.EOF then None else Some(old(s.Final()))
  {
    hide S.Behaves, S.Input, S.FinalError, S.Steady, S.Fits, S.Tokens, ShortWords, Words, ScanWords;
    ScanWordsSteady();
    WordsAreTokens(s.Unread(), s.maxTokenSize);
    words := S.ScanAll(s);
  }

  lemma ScanWordsSteady()
    ensures S.Steady(ScanWords)
  {
    hide ScanWords;
    ScanWordsCoherent();
    forall u: seq<Byte>
      ensures S.Advances(ScanWords(u, true), |u|)
    {
      WordBounds(u);
    }
  }

  lemma {:induction false} WordsAreTokens(u: seq<Byte>, max: int)
    requires ShortWords(u, max) && 3 <= max <= S.MAX_INT / 2
    ensures S.Tokens(ScanWords, u) == Words(u) && S.Fits(ScanWords, u, max)
    decreases |u|
  {
    hide Words, ScanWords, S.Stuck;
    WordsStep(u);
    var a := ScanWords(u, true);
    if a.token.Some? {
      var tail := u[a.advance..];
      assert ShortWords(tail, max) by {
        forall k | 0 <= k < |Words(tail)|
          ensures |Words(tail)[k]| + 3 <= max
        {
          assert Words(tail)[k] == Words(u)[k + 1];
        }
      }
      WordsAreTokens(tail, max);
    }
    forall k: nat, l: nat
      ensures !S.Stuck(ScanWords, u, max, k, l)
    {
      ShortWordsFit(u, max, k, l);
    }
  }

  /** The buffer limit is never in the way of short words. */
  lemma ShortWordsFit(u: seq<Byte>, max: int, k: nat, l: nat)
    requires ShortWords(u, max) && 3 <= max <= S.MAX_INT / 2
    ensures !S.Stuck(ScanWords, u, max, k, l)
  {
    hide Words, Skip, FirstSpace, SpaceFirst, ScanWords;
    WordsStep(u);
    assert ScanWords(u, true).token.Some? ==> |Words(u)[0]| + 3 <= max;
    if S.Stuck(ScanWords, u, max, k, l) {
      assert u[k..] == u[k..k + l] + u[k + l..];
      LongWord(u[k..k + l], u[k + l..]);
    }
  }

  /** Where ScanWords can do nothing with a buffer, the first word fills it, up to a white
      space character that is cut off. */
  lemma LongWord(window: seq<Byte>, tail: seq<Byte>)
    requires |window| >= 3 && S.NeedsMore(ScanWords(window, false))
    ensures var a := ScanWords(window + tail, true); a.token.Some? && |a.token.value| + 3 > |window|
  {
    hide Skip, FirstSpace, RuneLen, RuneAt, IsSpace;
    var s := window + tail;
    assert window[0..] == window && s[0..] == s;
    SkipsAll(window);
    SkipsNothing(window, tail);
    if FirstSpace(s) >= 0 { SpaceBeyond(window, tail); }
  }

  lemma SkipsNothing(window: seq<Byte>, tail: seq<Byte>)
    requires |window| >= 3 && !SpaceFirst(window)
    ensures Skip(window + tail) == 0
  {
    hide RuneLen, RuneAt;
    if SpaceFirst(window + tail) {
      SpaceWidth(window + tail);
      WholeFront(window, tail);
    }
  }

  /** No white space character has more than 3 bytes. */
  lemma SpaceWidth(s: seq<Byte>)
    requires s != [] && SpaceFirst(s)
    ensures RuneLen(s) <= 3 && !Continues(s[0])
  {
  }

  lemma WholeFront(s: seq<Byte>, tail: seq<Byte>)
    requires s != [] && RuneLen(s + tail) <= |s|
    ensures RuneLen(s) == RuneLen(s + tail) && RuneAt(s) == RuneAt(s + tail)
  {
  }

  lemma {:induction false} SpaceBeyond(s: seq<Byte>, tail: seq<Byte>)
    requires FirstSpace(s) < 0 <= FirstSpace(s + tail)
    ensures FirstSpace(s + tail) + 3 > |s|
    decreases |s|
  {
    hide RuneLen, RuneAt, IsSpace;
    if s != [] && RuneLen(s + tail) <= |s| {
      WholeFront(s, tail);
      var n := RuneLen(s);
      assert (s + tail)[n..] == s[n..] + tail;
      SpaceBeyond(s[n..], tail);
    } else if s != [] && SpaceFirst(s + tail) {
      SpaceWidth(s + tail);
    }
  }

  // ----- words written out and read back -----

  predicate IsWord(w: seq<Byte>) { w != [] && FirstSpace(w) < 0 }

  /** White space, at least one character. */
  predicate IsGap(gap: seq<Byte>) { gap != [] && Skip(gap) == |gap| }

  /** Words with the white space behind them. */
  function Written(items: seq<(seq<Byte>, seq<Byte>)>): seq<Byte> {
    if items == [] then [] else items[0].0 + items[0].1 + Written(items[1..])
  }

  function Texts(items: seq<(seq<Byte>, seq<Byte>)>): seq<seq<Byte>> {
    if items == [] then [] else [items[0].0] + Texts(items[1..])
  }

  /** Reading back written words gives the words, whatever bytes other than white space
      they are made of and whatever white space stands between and around them. */
  lemma {:induction false} WordsOfWritten(items: seq<(seq<Byte>, seq<Byte>)>, last: seq<Byte>)
    requires forall k | 0 <= k < |items| :: IsWord(items[k].0) && IsGap(items[k].1)
    requires FirstSpace(last) < 0
    ensures Words(Written(items) + last) == Texts(items) + Begun(last)
    decreases items
  {
    hide IsGap, RuneLen, SpaceFirst, FirstSpace, Skip, WordsFrom;
    if items == [] {
      assert Written([]) + last == last;
      assert [] + last == last && Texts([]) + Begun(last) == Begun(last);
      WordsCut([], last);
    } else {
      var w, gap, rest := items[0].0, items[0].1, Written(items[1..]) + last;
      assert Written(items) + last == w + (gap + rest);
      OneWord(w, gap, rest);
      WordsOfWritten(items[1..], last);
      assert ([w] + Texts(items[1..])) + Begun(last) == [w] + (Texts(items[1..]) + Begun(last));
    }
  }

  /** White space in front makes no difference. */
  lemma WordsAfterGap(gap: seq<Byte>, rest: seq<Byte>)
    requires IsGap(gap)
    ensures Words(gap + rest) == Words(rest)
  {
    hide RuneLen, SpaceFirst, WordsFrom, Words, Skip;
    SkipPrefix(gap, rest);
    assert gap[|gap|..] + rest == rest;
    WordsSkip(gap + rest);
    WordsSkip(rest);
    assert (gap + rest)[|gap|..] == rest;
    DropTwice(gap + rest, |gap|, Skip(rest));
  }

  lemma OneWord(w: seq<Byte>, gap: seq<Byte>, rest: seq<Byte>)
    requires IsWord(w) && IsGap(gap)
    ensures Words(w + (gap + rest)) == [w] + Words(rest)
  {
    hide RuneLen, RuneAt, IsSpace, WordsFrom;
    var s := w + (gap + rest);
    GapStart(gap, rest);
    NextSpace(w, gap + rest);
    WordsCut([], s);
    assert [] + s[..|w|] == w && s[|w|..] == gap + rest;
    DropTwice(s, |w|, RuneLen(gap + rest));
    WordsAfterGap(gap, rest);
  }

  lemma GapStart(gap: seq<Byte>, rest: seq<Byte>)
    requires IsGap(gap)
    ensures SpaceFirst(gap + rest) && Words(gap + rest) == Words((gap + rest)[RuneLen(gap + rest)..])
  {
    hide RuneLen, RuneAt, IsSpace;
    SpaceStays(gap, rest);
  }

  /** A word ends where white space begins: no character reaches from one into the other. */
  lemma {:induction false} NextSpace(w: seq<Byte>, tail: seq<Byte>)
    requires FirstSpace(w) < 0 && tail != [] && SpaceFirst(tail)
    ensures FirstSpace(w + tail) == |w|
    decreases |w|
  {
    hide RuneLen, RuneAt, IsSpace;
    if w == [] {
      assert w + tail == tail;
    } else {
      NoBridge(w, tail);
      WholeFront(w, tail);
      var n := RuneLen(w);
      assert (w + tail)[n..] == w[n..] + tail;
      NextSpace(w[n..], tail);
    }
  }

  lemma NoBridge(w: seq<Byte>, tail: seq<Byte>)
    requires w != [] && tail != [] && SpaceFirst(tail)
    ensures RuneLen(w + tail) <= |w|
  {
    SpaceWidth(tail);
    assert (w + tail)[|w|] == tail[0];
  }

  /** What is found is made of words. */
  lemma {:induction false} WordsClean(s: seq<Byte>)
    ensures forall w | w in Words(s) :: IsWord(w)
    decreases |s|
  {
    hide RuneLen, SpaceFirst;
    WordsCut([], s);
    var i := FirstSpace(s);
    if i < 0 {
      assert [] + s == s;
    } else {
      NoneBefore(s);
      assert [] + s[..i] == s[..i];
      WordsClean(s[i + RuneLen(s[i..])..]);
    }
  }

  lemma {:induction false} NoneBefore(s: seq<Byte>)
    requires FirstSpace(s) >= 0
    ensures FirstSpace(s[..FirstSpace(s)]) < 0
    decreases |s|
  {
    hide RuneLen, RuneAt, IsSpace;
    if !SpaceFirst(s) {
      var n, i := RuneLen(s), FirstSpace(s);
      var front := s[..i];
      assert front + s[i..] == s;
      WholeFront(front, s[i..]);
      assert front[n..] == s[n..][..i - n];
      NoneBefore(s[n..]);
    }
  }
}
