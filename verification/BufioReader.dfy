/** bufio.Reader: slices and lines that do not depend on the size of the buffer or on how
    the reader chops up its data. */
module BufioReader {
  import opened Common
  import S = Scanner

  type Text = seq<Byte>

  const MIN_READ_BUFFER_SIZE: nat := 16
  const MAX_EMPTY_READS: nat := 100

  /** An error of the reader, or io.ErrNoProgress from line 135. */
  datatype Error = OfReader(e: S.Error) | NoProgress

  /** How ReadSlice ends: with the delimiter, with a full buffer, or with an error. */
  datatype Outcome = Found | Full | Failed(e: Error)

  class Reader {
    var buf: array<Byte>
    var rd: S.Reader
    var r: nat
    var w: nat
    var err: Option<Error>

    ghost predicate Valid()
      reads this, rd
    {
      && r <= w <= buf.Length && MIN_READ_BUFFER_SIZE <= buf.Length
      && S.Honest(rd.script)
    }

    /** The reader's next error is still to come. */
    ghost predicate Open()
      reads this
    {
      err.None? || err.value.NoProgress?
    }

    /** What the client has not been given yet, up to the reader's next error. */
    ghost function Unread(): Text
      reads this, buf, rd
      requires r <= w <= buf.Length
    {
      buf[r..w] + (if Open() then S.Input(rd.script) else [])
    }

    /** That error. */
    ghost function Final(): S.Error
      reads this, rd
    {
      if Open() then S.FinalError(rd.script) else err.value.e
    }

    /** Line 53: NewReaderSize */
    constructor (rd: S.Reader, size: int)
      requires S.Honest(rd.script)
      ensures Valid() && this.rd == rd && fresh(buf) && err.None?
      ensures Unread() == S.Input(rd.script) && Final() == S.FinalError(rd.script)
    {
      buf := new Byte[if size < MIN_READ_BUFFER_SIZE then MIN_READ_BUFFER_SIZE else size];
      this.rd := rd;
      r, w, err := 0, 0, None;
    }

    /** Line 347: Buffered */
    function Buffered(): nat
      reads this, rd
      requires Valid()
    {
      w - r
    }

    /** Lines 108-112: slides the data to the front. */
    method Slide()
      requires Valid()
      modifies this`r, this`w, buf
      ensures Valid() && r == 0 && w == old(w - r) && buf[..w] == old(buf[r..w])
    {
      if r > 0 {
        CopyWithin(buf, r, w);
        w := w - r;
        r := 0;
      }
    }

    /** Line 122: one call of the reader. */
    method ReadMore() returns (n: nat, e: Option<S.Error>)
      requires Valid() && r == 0 && w < buf.Length && err.None?
      modifies this`w, buf, rd
      ensures Valid() && w == old(w) + n && buf[..old(w)] == old(buf[..w])
      ensures buf[..w] + (if e.Some? then [] else S.Input(rd.script)) == old(buf[..w]) + S.Input(old(rd.script))
      ensures S.FinalError(old(rd.script)) == if e.Some? then e.value else S.FinalError(rd.script)
      ensures e.None? ==> S.Size(rd.script) < S.Size(old(rd.script))
      ensures e.None? && n == 0 ==> old(rd.script) != [] && S.IsEmpty(old(rd.script)[0]) && rd.script == old(rd.script)[1..]
      ensures forall max: nat :: S.Lively(old(rd.script), max) ==> S.Lively(rd.script, max)
    {
      hide S.Input, S.FinalError, S.Size, S.Lively;
      ghost var front := buf[..w];
      assert S.Honest(rd.script);
      var c, e0 := rd.Read(buf, w);
      n, e := c, e0;
      ghost var got := buf[w..w + n];
      assert buf[..w + n] == front + got;
      w := w + n;
    }

    /** Line 105: fill. Its panic on a full buffer is not reached. */
    method Fill()
      requires Valid() && Buffered() < buf.Length && err.None?
      modifies this`r, this`w, this`err, buf, rd
      ensures Valid() && Unread() == old(Unread()) && Final() == old(Final())
      ensures w - r >= old(w - r) && buf[r..r + old(w - r)] == old(buf[r..w])
      ensures err.None? ==> S.Size(rd.script) < S.Size(old(rd.script))
      ensures err == Some(NoProgress) ==> !S.Lively(old(rd.script), MAX_EMPTY_READS - 1)
      ensures forall max: nat :: S.Lively(old(rd.script), max) ==> S.Lively(rd.script, max)
    {
      hide S.Input, S.FinalError, S.Size, S.Lively, S.EmptyRun;
      Slide();
      ghost var front := buf[..w];
      ghost var start := rd.script;
      var i := MAX_EMPTY_READS;
      while i > 0
        invariant 0 <= i <= MAX_EMPTY_READS && r == 0 && w == |front| < buf.Length && buf[..w] == front
        invariant Valid() && err.None?
        invariant S.Input(rd.script) == S.Input(start) && S.FinalError(rd.script) == S.FinalError(start)
        invariant S.Size(rd.script) <= S.Size(start)
        invariant forall max: nat :: S.Lively(start, max) ==> S.Lively(rd.script, max)
        invariant S.EmptyRun(start) == (MAX_EMPTY_READS - i) + S.EmptyRun(rd.script)
        decreases i
      {
        ghost var before := rd.script;
        var n, e := ReadMore();
        assert buf[..w][..|front|] == front;
        if e.Some? {
          err := Some(OfReader(e.value));
          return;
        }
        if n > 0 {
          return;
        }
        EmptyAnswer(before);
        SameRest(front, S.Input(rd.script), S.Input(before));
        i := i - 1;
      }
      LivelyRun(start);
      err := Some(NoProgress);
    }

    /** Line 138: readErr */
    method ReadErr() returns (e: Option<Error>)
      requires Valid()
      modifies this`err
      ensures Valid() && e == old(err) && err.None?
    {
      e := err;
      err := None;
    }

    /** Hands out n buffered bytes. */
    method Take(n: nat) returns (line: Text)
      requires Valid() && n <= w - r
      modifies this`r
      ensures Valid() && r == old(r) + n
      ensures line == old(buf[r..w])[..n] && old(Unread()) == line + Unread() && Final() == old(Final())
    {
      line := buf[r..r + n];
      r := r + n;
      assert buf[old(r)..w] == line + buf[r..w];
    }

    /** Lines 365-366 */
    method TakeLine(delim: Byte, i: nat) returns (line: Text)
      requires Valid() && i < w - r && buf[r + i] == delim && delim !in buf[r..r + i]
      modifies this`r
      ensures Valid() && old(Unread()) == line + Unread() && Final() == old(Final())
      ensures line != [] && line[|line| - 1] == delim && delim !in line[..|line| - 1]
    {
      ghost var window := buf[r..w];
      assert buf[r..r + i] == window[..i];
      line := Take(i + 1);
      assert line[..i] == window[..i] && line[i] == window[i];
    }

    /** Lines 372-374 */
    method TakeErr() returns (line: Text, out: Outcome)
      requires Valid() && err.Some?
      modifies this`r, this`err
      ensures Valid() && r == w && err.None? && line == old(buf[r..w])
      ensures out == Failed(old(err).value)
      ensures if out.e.OfReader? then line == old(Unread()) && out.e.e == old(Final())
        else old(Unread()) == line + Unread() && Final() == old(Final())
    {
      hide S.Input, S.FinalError;
      line := buf[r..w];
      r := w;
      var e := ReadErr();
      out := Failed(e.value);
    }

    /** Line 363: the delimiter in what is buffered, the first s bytes of which are known not
        to have it. */
    method Find(delim: Byte, s: nat) returns (i: int)
      requires Valid() && s <= w - r && delim !in buf[r..r + s]
      ensures -1 <= i < w - r
      ensures i < 0 ==> delim !in buf[r..w]
      ensures i >= 0 ==> buf[r + i] == delim && delim !in buf[r..r + i]
    {
      ghost var window := buf[r..w];
      assert window[..s] == buf[r..r + s] && window[s..] == buf[r + s..w];
      var o := IndexByte(buf[r + s..w], delim);
      FirstInWindow(window, s, delim, o);
      i := if o >= 0 then o + s else -1;
      assert i >= 0 ==> window[..i] == buf[r..r + i];
    }

    /** Line 359: ReadSlice */
    method ReadSlice(delim: Byte) returns (line: Text, out: Outcome)
      requires Valid()
      modifies this, buf, rd
      ensures Valid() && buf == old(buf) && rd == old(rd)
      ensures Sliced(old(Unread()), old(Final()), delim, line, out, Unread(), Final())
      ensures out.Failed? ==> r == w && err.None?
      ensures out.Full? ==> |line| == buf.Length && r == w == buf.Length && err.None? && line == buf[..]
      ensures forall max: nat :: S.Lively(old(rd.script), max) ==> S.Lively(rd.script, max)
      ensures old(err).None? && out.Failed? && out.e.NoProgress? ==> !S.Lively(old(rd.script), MAX_EMPTY_READS - 1)
    {
      hide S.Input, S.FinalError, S.Size, S.Lively;
      var s := 0;
      while true
        invariant Valid() && buf == old(buf) && rd == old(rd)
        invariant Unread() == old(Unread()) && Final() == old(Final())
        invariant 0 <= s <= w - r && delim !in buf[r..r + s]
        invariant forall max: nat :: S.Lively(old(rd.script), max) ==> S.Lively(rd.script, max)
        invariant old(err).None? && err == Some(NoProgress) ==> !S.Lively(old(rd.script), MAX_EMPTY_READS - 1)
        decreases err.None?, S.Size(rd.script)
      {
        ghost var window := buf[r..w];
        var i := Find(delim, s);
        if i >= 0 {
          line := TakeLine(delim, i);
          return line, Found;
        }
        if err.Some? {
          line, out := TakeErr();
          return;
        }
        if Buffered() >= buf.Length {
          line := Take(w - r);
          assert line == buf[..];
          return line, Full;
        }
        s := w - r;
        Fill();
        assert buf[r..r + s] == window;
      }
    }

    /** Line 458: collectFragments: full buffers that do not have the delimiter, and what
        comes after them. */
    method CollectFragments(delim: Byte) returns (fullBuffers: seq<Text>, frag: Text, totalLen: nat, e: Option<Error>)
      requires Valid()
      modifies this, buf, rd
      ensures Valid() && buf == old(buf) && rd == old(rd)
      ensures totalLen == |Flatten(fullBuffers) + frag|
      ensures Delivered(old(Unread()), old(Final()), delim, Flatten(fullBuffers) + frag, e, Unread(), Final())
    {
      fullBuffers, totalLen, e := [], 0, None;
      ghost var u, final := Unread(), Final();
      while true
        invariant Valid() && buf == old(buf) && rd == old(rd)
        invariant totalLen == |Flatten(fullBuffers)| && delim !in Flatten(fullBuffers)
        invariant u == Flatten(fullBuffers) + Unread() && Final() == final
        decreases |Unread()|
      {
        hide S.Input, S.FinalError, S.Lively, Flatten, Delivered, Sliced;
        ghost var before, front := Unread(), Flatten(fullBuffers);
        var out;
        frag, out := ReadSlice(delim);
        if !out.Full? {
          if out.Failed? {
            e := Some(out.e);
          }
          SlicedDelivers(u, final, delim, front, frag, out, before, Unread(), Final());
          totalLen := totalLen + |frag|;
          return;
        }
        SlicedContinues(u, final, delim, front, frag, before, Unread(), Final());
        FlattenSnoc(fullBuffers, frag);
        fullBuffers := fullBuffers + [frag];
        totalLen := totalLen + |frag|;
      }
    }

    /** Line 490: ReadBytes. The result is the stream up to and including the first
        delimiter, or the rest of it with the error, for every buffer size and every way
        the data arrives; and there is an error exactly if it does not end in the
        delimiter. */
    method ReadBytes(delim: Byte) returns (data: Text, e: Option<Error>)
      requires Valid()
      modifies this, buf, rd
      ensures Valid() && buf == old(buf) && rd == old(rd)
      ensures Delivered(old(Unread()), old(Final()), delim, data, e, Unread(), Final())
      ensures e.None? <==> data != [] && data[|data| - 1] == delim
    {
      var full, frag, n, e0 := CollectFragments(delim);
      e := e0;
      data := Assemble(full, frag, n);
    }

    /** Line 416: ReadLine */
    method ReadLine() returns (line: Text, isPrefix: bool, e: Option<Error>)
      requires Valid()
      modifies this, buf, rd
      ensures Valid() && buf == old(buf) && rd == old(rd)
      ensures isPrefix ==> e.None? && line != [] && NL !in line && old(Unread()) == line + Unread() && Final() == old(Final())
      ensures isPrefix && line[|line| - 1] == CR ==> Unread() != [] && Unread()[0] == CR
      ensures isPrefix ==> err.None?
      ensures e.Some? ==> line == [] && (e.value.OfReader? ==> old(Unread()) == [] && e.value.e == old(Final()))
      ensures !isPrefix && e.None? ==> exists raw: Text ::
        line == EndLine(raw) && RawLine(old(Unread()), old(Final()), raw, Alive(old(err), old(rd.script)), Unread(), Final())
      ensures forall max: nat :: S.Lively(old(rd.script), max) ==> S.Lively(rd.script, max)
      ensures e.Some? && e.value.NoProgress? ==>
        !Alive(old(err), old(rd.script)) && Unread() == old(Unread()) && Final() == old(Final())
    {
      hide S.Input, S.FinalError, S.Size, S.Lively;
      var out;
      line, out := ReadSlice(NL);
      if out.Full? {
        if |line| > 0 && line[|line| - 1] == CR {
          PutBack(CR);
          GaveBack(line, CR, old(Unread()), Unread());
          line := line[..|line| - 1];
        }
        return line, true, None;
      }
      e := if out.Failed? then Some(out.e) else None;
      if |line| == 0 {
        return line, false, e;
      }
      e := None;
      ghost var raw := line;
      if line[|line| - 1] == NL {
        var drop := 1;
        if |line| > 1 && line[|line| - 2] == CR {
          drop := 2;
        }
        line := line[..|line| - drop];
      }
      isPrefix := false;
      assert line == EndLine(raw) && RawLine(old(Unread()), old(Final()), raw, Alive(old(err), old(rd.script)), Unread(), Final());
    }

    /** Lines 420-427: the last byte of a full buffer becomes unread again. */
    method PutBack(c: Byte)
      requires Valid() && r == w == buf.Length && buf[buf.Length - 1] == c && err.None?
      modifies this`r
      ensures Valid() && Unread() == [c] + old(Unread()) && Final() == old(Final())
    {
      r := r - 1;
      assert buf[r..w] == [c];
    }
  }

  lemma GaveBack(line: Text, c: Byte, u: Text, rest: Text)
    requires line != [] && line[|line| - 1] == c && rest != [] && u == line + rest[1..] && rest[0] == c
    ensures u == line[..|line| - 1] + rest
  {
    assert line == line[..|line| - 1] + [c] && rest == [c] + rest[1..];
  }

  /** A line with its terminator, or what is left of the stream. */
  ghost predicate RawLine(u: Text, final: S.Error, raw: Text, alive: bool, rest: Text, final': S.Error) {
    && raw != []
    && if raw[|raw| - 1] == NL then NL !in raw[..|raw| - 1] && u == raw + rest && final' == final
       else NL !in raw && (raw == u || (!alive && u == raw + rest && final' == final))
  }

  /** The reader does not return nothing too often. */
  ghost predicate Alive(err: Option<Error>, script: seq<S.Answer>) {
    err.None? && S.Lively(script, MAX_EMPTY_READS - 1)
  }

  /** Lines 441-447: a line without its terminator. */
  function EndLine(raw: Text): Text {
    if raw == [] || raw[|raw| - 1] != NL then raw
    else if |raw| > 1 && raw[|raw| - 2] == CR then raw[..|raw| - 2]
    else raw[..|raw| - 1]
  }

  /** What ReadSlice comes to: u is what was unread before, rest after. */
  ghost predicate Sliced(u: Text, final: S.Error, delim: Byte, line: Text, out: Outcome, rest: Text, final': S.Error) {
    && (if out.Found? then line != [] && line[|line| - 1] == delim && delim !in line[..|line| - 1] else delim !in line)
    && (if out.Failed? && out.e.OfReader? then line == u && out.e.e == final else u == line + rest && final' == final)
  }

  /** A slice that is not a full buffer ends a read up to the delimiter. */
  lemma SlicedDelivers(u: Text, final: S.Error, delim: Byte, front: Text, line: Text, out: Outcome, before: Text, rest: Text, final': S.Error)
    requires u == front + before && delim !in front && !out.Full? && Sliced(before, final, delim, line, out, rest, final')
    ensures Delivered(u, final, delim, front + line, if out.Failed? then Some(out.e) else None, rest, final')
  {
    Closing(front, line, delim);
    assert front + (line + rest) == (front + line) + rest;
  }

  /** A full buffer is one more fragment. */
  lemma SlicedContinues(u: Text, final: S.Error, delim: Byte, front: Text, line: Text, before: Text, rest: Text, final': S.Error)
    requires u == front + before && delim !in front && Sliced(before, final, delim, line, Full, rest, final')
    ensures u == (front + line) + rest && delim !in front + line && final' == final
  {
    assert front + (line + rest) == (front + line) + rest;
  }

  /** What a read up to a delimiter comes to: u is what was unread before, rest after. */
  ghost predicate Delivered(u: Text, final: S.Error, delim: Byte, data: Text, e: Option<Error>, rest: Text, final': S.Error) {
    match e
    case None => data != [] && data[|data| - 1] == delim && delim !in data[..|data| - 1] && u == data + rest && final' == final
    case Some(NoProgress) => delim !in data && u == data + rest && final' == final
    case Some(OfReader(e0)) => delim !in data && data == u && e0 == final
  }

  lemma Closing(front: Text, frag: Text, delim: Byte)
    requires delim !in front
    ensures delim !in frag ==> delim !in front + frag
    ensures frag != [] && delim !in frag[..|frag| - 1] ==> delim !in (front + frag)[..|front + frag| - 1]
  {
    if frag != [] { assert (front + frag)[..|front + frag| - 1] == front + frag[..|frag| - 1]; }
  }

  /** Lines 493-499: the fragments fill a slice of the total length. */
  method Assemble(full: seq<Text>, frag: Text, total: nat) returns (data: Text)
    requires total == |Flatten(full) + frag|
    ensures data == Flatten(full) + frag
  {
    var buf := new Byte[total];
    var n := 0;
    assert full[..0] == [] && Flatten([]) == [] && full[..|full|] == full;
    for i := 0 to |full|
      invariant n == |Flatten(full[..i])| && n <= |Flatten(full)| && buf[..n] == Flatten(full[..i])
    {
      assert full[..i + 1] == full[..i] + [full[i]];
      FlattenSnoc(full[..i], full[i]);
      FlattenPrefix(full, i + 1);
      ghost var front := buf[..n];
      CopyInto(buf, n, full[i]);
      assert buf[..n + |full[i]|] == buf[..][..n + |full[i]|] == front + full[i];
      n := n + |full[i]|;
    }
    ghost var front := buf[..n];
    CopyInto(buf, n, frag);
    assert buf[..] == front + frag;
    return buf[..];
  }

  lemma {:induction false} FlattenPrefix(xs: seq<Text>, i: nat)
    requires i <= |xs|
    ensures |Flatten(xs[..i])| <= |Flatten(xs)|
    decreases i
  {
    if i > 0 {
      assert xs[..i][1..] == xs[1..][..i - 1] && xs[..i][0] == xs[0];
      FlattenPrefix(xs[1..], i - 1);
    }
  }

  lemma EmptyAnswer(script: seq<S.Answer>)
    requires script != [] && S.IsEmpty(script[0])
    ensures S.EmptyRun(script) == 1 + S.EmptyRun(script[1..])
  {
  }

  lemma LivelyRun(script: seq<S.Answer>)
    ensures S.EmptyRun(script) >= MAX_EMPTY_READS ==> !S.Lively(script, MAX_EMPTY_READS - 1)
  {
    assert script[0..] == script;
  }

  lemma FirstInWindow(window: Text, s: nat, delim: Byte, i: int)
    requires s <= |window| && delim !in window[..s] && i == IndexByte(window[s..], delim)
    ensures i < 0 ==> delim !in window
    ensures i >= 0 ==> i + s < |window| && window[i + s] == delim && delim !in window[..i + s]
  {
    IndexByteSpec(window[s..], delim);
    assert window == window[..s] + window[s..];
    if i >= 0 { assert window[..i + s] == window[..s] + window[s..][..i]; }
  }

  // ----- whole lines -----

  /** A caller that joins the fragments of ReadLine gets the next line of the stream without
      its "\n" or "\r\n", even if these two are torn apart by the end of the buffer; after
      the last newline it gets what is left, and an error if nothing is. Only a reader that
      returns nothing a hundred times in a row can make it stop within a line, and then
      nothing is lost. */
  method JoinLine(b: Reader) returns (line: Text, e: Option<Error>)
    requires b.Valid()
    modifies b, b.buf, b.rd
    ensures b.Valid() && b.buf == old(b.buf) && b.rd == old(b.rd)
    ensures Joined(old(b.Unread()), old(b.Final()), line, e, b.Unread(), b.Final())
      || (!Alive(old(b.err), old(b.rd.script)) && Stalled(old(b.Unread()), old(b.Final()), line, e, b.Unread(), b.Final()))
  {
    hide S.Input, S.FinalError, S.Size, S.Lively, Joined, Stalled, Joining, RawLine, EndLine;
    ghost var u, final := b.Unread(), b.Final();
    ghost var alive := Alive(b.err, b.rd.script);
    line, e := [], None;
    var isPrefix := true;
    NothingJoined(u);
    while isPrefix
      invariant b.Valid() && b.buf == old(b.buf) && b.rd == old(b.rd)
      invariant isPrefix ==> (alive ==> Alive(b.err, b.rd.script)) && b.Final() == final && Joining(u, line, b.Unread())
      invariant !isPrefix ==>
        Joined(u, final, line, e, b.Unread(), b.Final()) || (!alive && Stalled(u, final, line, e, b.Unread(), b.Final()))
      decreases isPrefix, |b.Unread()|
    {
      ghost var before := b.Unread();
      ghost var alive1 := Alive(b.err, b.rd.script);
      var part;
      part, isPrefix, e := b.ReadLine();
      if isPrefix {
        Prolong(u, line, part, b.Unread());
      } else if e.Some? {
        NoMore(u, line, e.value, alive1, before, b.Unread(), final, b.Final());
      } else {
        ghost var raw: Text :| part == EndLine(raw) && RawLine(before, final, raw, alive1, b.Unread(), b.Final());
        LastPart(u, line, raw, alive1, b.Unread(), final, b.Final(), before);
      }
      line := line + part;
    }
  }

  /** The fragments so far: no newline yet, and a carriage return at the end means that the
      next byte is one, too, because it was put back. */
  ghost predicate Joining(u: Text, line: Text, rest: Text) {
    u == line + rest && NL !in line && (line != [] && line[|line| - 1] == CR ==> rest != [] && rest[0] == CR)
  }

  /** The next line, or the rest of the stream. */
  ghost predicate Joined(u: Text, final: S.Error, line: Text, e: Option<Error>, rest: Text, final': S.Error) {
    var i := IndexByte(u, NL);
    if i >= 0 then e.None? && line == S.DropCR(u[..i]) && rest == u[i + 1..] && final' == final
    else line == u && (u == [] ==> e.Some?) && (e.Some? ==> e == Some(OfReader(final)))
  }

  /** Part of a line; the stream goes on where it ends. */
  ghost predicate Stalled(u: Text, final: S.Error, line: Text, e: Option<Error>, rest: Text, final': S.Error) {
    NL !in line && u == line + rest && final' == final && (e.Some? ==> e == Some(NoProgress))
  }

  lemma NothingJoined(u: Text)
    ensures Joining(u, [], u)
  {
  }

  lemma NoMore(u: Text, line: Text, e: Error, alive: bool, before: Text, rest: Text, final: S.Error, final': S.Error)
    requires Joining(u, line, before)
    requires if e.OfReader? then before == [] && e.e == final else !alive && rest == before && final' == final
    ensures line + [] == line
    ensures Joined(u, final, line, Some(e), rest, final') || (!alive && Stalled(u, final, line, Some(e), rest, final'))
  {
    IndexByteSpec(u, NL);
  }

  lemma Prolong(u: Text, line: Text, part: Text, rest: Text)
    requires Joining(u, line, part + rest) && part != [] && NL !in part
    requires part[|part| - 1] == CR ==> rest != [] && rest[0] == CR
    ensures Joining(u, line + part, rest)
  {
    assert line + (part + rest) == (line + part) + rest;
  }

  lemma LastPart(u: Text, line: Text, raw: Text, alive: bool, rest: Text, final: S.Error, final': S.Error, before: Text)
    requires Joining(u, line, before) && RawLine(before, final, raw, alive, rest, final')
    ensures Joined(u, final, line + EndLine(raw), None, rest, final')
      || (!alive && Stalled(u, final, line + EndLine(raw), None, rest, final'))
  {
    hide Joining, EndLine, S.DropCR, Stalled;
    if raw[|raw| - 1] == NL {
      WholeLine(u, line, raw, rest);
    } else {
      assert EndLine(raw) == raw by { NoTerminator(raw); }
      LastRest(u, line, raw, alive, rest, final, final', before);
    }
  }

  lemma NoTerminator(raw: Text)
    requires raw != [] && raw[|raw| - 1] != NL
    ensures EndLine(raw) == raw
  {
  }

  lemma LastRest(u: Text, line: Text, raw: Text, alive: bool, rest: Text, final: S.Error, final': S.Error, before: Text)
    requires Joining(u, line, before) && raw != [] && NL !in raw
    requires raw == before || (!alive && before == raw + rest && final' == final)
    ensures Joined(u, final, line + raw, None, rest, final')
      || (!alive && Stalled(u, final, line + raw, None, rest, final'))
  {
    IndexByteSpec(u, NL);
    assert (line + raw) + rest == line + (raw + rest);
  }

  lemma WholeLine(u: Text, line: Text, raw: Text, rest: Text)
    requires Joining(u, line, raw + rest) && raw != [] && raw[|raw| - 1] == NL && NL !in raw[..|raw| - 1]
    ensures var i := IndexByte(u, NL); i >= 0 && line + EndLine(raw) == S.DropCR(u[..i]) && rest == u[i + 1..]
  {
    var i := |line| + |raw| - 1;
    assert u[..i] == line + raw[..|raw| - 1];
    assert u[i] == NL && u[i + 1..] == rest;
    IndexByteUnique(u, NL, i);
    DropAcross(line, raw);
  }

  lemma DropAcross(line: Text, raw: Text)
    requires raw != [] && raw[|raw| - 1] == NL && (line != [] && line[|line| - 1] == CR ==> raw[0] == CR)
    ensures S.DropCR(line + raw[..|raw| - 1]) == line + EndLine(raw)
  {
    var body := raw[..|raw| - 1];
    if body != [] {
      assert (line + body)[|line + body| - 1] == body[|body| - 1];
    } else {
      assert line + body == line;
    }
    if body != [] && body[|body| - 1] == CR {
      assert (line + body)[..|line + body| - 1] == line + raw[..|raw| - 2];
    }
  }
}
