/** bufio.Writer over a sink that may fail at any point. */
module BufioWriter {
  import opened Common
  import opened Utf8
  import S = Scanner

  type Text = seq<Byte>

  datatype Error = ShortWrite | SinkError(code: nat)

  /** The answers the sink is going to give: how many bytes it takes at most, and whether
      it fails even if it took all. */
  datatype Answer = Answer(room: nat, fails: Option<Error>)

  /** Any writer that keeps to the contract of io.Writer (io.go lines 103-118): a short
      count comes with an error. */
  class Sink {
    var content: Text
    var script: seq<Answer>

    constructor (script: seq<Answer>)
      ensures content == [] && this.script == script
    {
      content := [];
      this.script := script;
    }

    method Write(p: Text) returns (n: nat, err: Option<Error>)
      modifies this
      ensures n <= |p| && (n < |p| ==> err.Some?)
      ensures content == old(content) + p[..n]
    {
      var a := if script == [] then Answer(|p|, None) else script[0];
      script := if script == [] then [] else script[1..];
      n := if a.room < |p| then a.room else |p|;
      err := if a.fails.Some? then a.fails else if n < |p| then Some(ShortWrite) else None;
      content := content + p[..n];
    }
  }

  /** The errors of ReadFrom, None for success. */
  datatype ReadFromError = OfReader(e: S.Error) | OfSink(error: Error) | NoProgress

  const DEFAULT_BUF_SIZE: nat := 4096
  const UTF_MAX: nat := 4

  class Writer {
    var err: Option<Error>
    var buf: array<Byte>
    var n: nat
    var wr: Sink

    ghost predicate Valid()
      reads this
    {
      n <= buf.Length && buf.Length > 0
    }

    /** Everything accepted: what is in the sink and what is still buffered. */
    ghost function Stream(): Text
      reads this, buf, wr
      requires Valid()
    {
      wr.content + buf[..n]
    }

    /** Line 596: NewWriterSize */
    constructor (w: Sink, size: int)
      ensures Valid() && wr == w && fresh(buf) && err == None && n == 0
      ensures Stream() == w.content
    {
      buf := new Byte[if size <= 0 then DEFAULT_BUF_SIZE else size];
      err, n, wr := None, 0, w;
    }

    /** Line 621: Reset throws buffered data and the error away. */
    method Reset(w: Sink)
      requires Valid()
      modifies this
      ensures Valid() && buf == old(buf) && wr == w && err == None && n == 0
      ensures Stream() == w.content
    {
      err := None;
      n := 0;
      wr := w;
    }

    /** Line 652: Available */
    function Available(): nat
      reads this
      requires Valid()
    {
      buf.Length - n
    }

    /** What every operation keeps: the writer's parts, and the first error; after an
        error the sink does not grow. */
    twostate predicate Sticky()
      reads this, wr
    {
      && buf == old(buf) && wr == old(wr)
      && (old(err).Some? ==> err == old(err) && wr.content == old(wr.content) && n == old(n))
      && old(wr.content) <= wr.content
    }

    /** Line 628: Flush */
    method Flush() returns (e: Option<Error>)
      requires Valid()
      modifies this, buf, wr
      ensures Valid() && Sticky() && Stream() == old(Stream())
      ensures e == err
      ensures e.None? ==> n == 0
      ensures n <= old(n)
    {
      if err.Some? {
        return err;
      }
      if n == 0 {
        return None;
      }
      ghost var was := buf[..n];
      var m, e0 := wr.Write(buf[..n]);
      e := e0;
      if m < n && e.None? {
        e := Some(ShortWrite);
      }
      if e.Some? {
        Keep(m);
        err := e;
        assert was[..m] + was[m..] == was;
        return e;
      }
      n := 0;
      assert was[..m] == was;
      return None;
    }

    /** Lines 640-643: what the sink did not take moves to the front. */
    method Keep(m: nat)
      requires Valid() && m <= n
      modifies this`n, buf
      ensures Valid() && n == old(n) - m && buf[..n] == old(buf[..n])[m..]
    {
      ghost var was := buf[..n];
      if m > 0 && m < n {
        CopyWithin(buf, m, n);
      }
      n := n - m;
      assert buf[..n] == was[m..];
    }

    /** copy(b.buf[b.n:], p): as much as fits. */
    method Fill(p: Text) returns (m: nat)
      requires Valid()
      modifies this`n, buf
      ensures Valid() && m == (if |p| < old(Available()) then |p| else old(Available()))
      ensures n == old(n) + m && Stream() == old(Stream()) + p[..m]
    {
      m := if |p| < Available() then |p| else Available();
      ghost var was := buf[..];
      CopyInto(buf, n, p[..m]);
      n := n + m;
      assert buf[..n] == buf[..][..n] == was[..n - m] + p[..m];
      assert was[..n - m] == old(buf[..n]);
      assert wr.content + (old(buf[..n]) + p[..m]) == (wr.content + old(buf[..n])) + p[..m];
    }

    /** Line 667: p goes to the sink directly. */
    method Bypass(p: Text) returns (m: nat)
      requires Valid() && n == 0 && err.None?
      modifies this, wr
      ensures Valid() && Sticky() && n == 0
      ensures m <= |p| && Stream() == old(Stream()) + p[..m] && (err.None? ==> m == |p|)
    {
      m, err := wr.Write(p);
    }

    /** Lines 663-672: one round of Write. */
    method Round(p: Text) returns (m: nat)
      requires Valid() && |p| > Available() && err.None?
      modifies this, buf, wr
      ensures Valid() && Sticky()
      ensures m <= |p| && Stream() == old(Stream()) + p[..m]
      ensures err.Some? || m > 0 || n < old(n)
    {
      if n == 0 {
        m := Bypass(p);
      } else {
        m := FillAndFlush(p);
      }
    }

    /** Lines 669-671 and 735-739 */
    method FillAndFlush(p: Text) returns (m: nat)
      requires Valid() && |p| > Available() && err.None?
      modifies this, buf, wr
      ensures Valid() && Sticky()
      ensures m == old(Available()) && Stream() == old(Stream()) + p[..m]
      ensures err.None? ==> n == 0
    {
      m := Fill(p);
      var e := Flush();
    }

    /** Line 661: Write. nn bytes are accepted, all of them unless there is an error. */
    method Write(p0: Text) returns (nn: nat, e: Option<Error>)
      requires Valid()
      modifies this, buf, wr
      ensures Valid() && Sticky()
      ensures nn <= |p0| && Stream() == old(Stream()) + p0[..nn]
      ensures e == err && (e.None? ==> nn == |p0|)
      ensures old(err).Some? ==> nn == 0
    {
      var p := p0;
      nn := 0;
      Advance(old(Stream()), p0, 0, 0);
      hide Taken;
      while |p| > Available() && err.None?
        invariant Valid() && Sticky()
        invariant nn <= |p0| && p == p0[nn..]
        invariant Stream() == Taken(old(Stream()), p0, nn)
        invariant old(err).Some? ==> nn == 0
        decreases err.None?, |p|, n
      {
        var m := Round(p);
        Advance(old(Stream()), p0, nn, m);
        nn := nn + m;
        p := p[m..];
      }
      if err.Some? {
        AllTaken(old(Stream()), p0, nn);
        return nn, err;
      }
      var m := Fill(p);
      Advance(old(Stream()), p0, nn, m);
      nn := nn + m;
      AllTaken(old(Stream()), p0, nn);
      return nn, None;
    }

    /** Line 732: WriteString goes through the buffer always. */
    method WriteString(p0: Text) returns (nn: nat, e: Option<Error>)
      requires Valid()
      modifies this, buf, wr
      ensures Valid() && Sticky()
      ensures nn <= |p0| && Stream() == old(Stream()) + p0[..nn]
      ensures e == err && (e.None? ==> nn == |p0|)
      ensures old(err).Some? ==> nn == 0
    {
      var p := p0;
      nn := 0;
      Advance(old(Stream()), p0, 0, 0);
      hide Taken;
      while |p| > Available() && err.None?
        invariant Valid() && Sticky()
        invariant nn <= |p0| && p == p0[nn..]
        invariant Stream() == Taken(old(Stream()), p0, nn)
        invariant old(err).Some? ==> nn == 0
        decreases err.None?, |p|, n
      {
        var m := FillAndFlush(p);
        Advance(old(Stream()), p0, nn, m);
        nn := nn + m;
        p := p[m..];
      }
      if err.Some? {
        AllTaken(old(Stream()), p0, nn);
        return nn, err;
      }
      var m := Fill(p);
      Advance(old(Stream()), p0, nn, m);
      nn := nn + m;
      AllTaken(old(Stream()), p0, nn);
      return nn, None;
    }

    /** Line 686: WriteByte */
    method WriteByte(c: Byte) returns (e: Option<Error>)
      requires Valid()
      modifies this, buf, wr
      ensures Valid() && Sticky() && e == err
      ensures Stream() == if e.None? then old(Stream()) + [c] else old(Stream())
    {
      if err.Some? {
        return err;
      }
      if Available() <= 0 {
        var e1 := Flush();
        if e1.Some? {
          return err;
        }
      }
      ghost var was := buf[..n];
      buf[n] := c;
      n := n + 1;
      assert buf[..n] == was + [c];
      return None;
    }

    /** Line 700: WriteRune */
    method WriteRune(r: int) returns (size: nat, e: Option<Error>)
      requires Valid()
      modifies this, buf, wr
      ensures Valid() && Sticky() && e == err
      ensures size <= |EncodeRune(r)| && Stream() == old(Stream()) + EncodeRune(r)[..size]
      ensures e.None? ==> size == |EncodeRune(r)|
      ensures old(err).Some? ==> size == 0
    {
      if 0 <= r < 0x80 {
        e := WriteByte(r);
        return if e.Some? then 0 else 1, e;
      }
      if err.Some? {
        return 0, err;
      }
      if Available() < UTF_MAX {
        var e1 := Flush();
        if err.Some? {
          return 0, err;
        }
        if Available() < UTF_MAX {
          size, e := WriteString(EncodeRune(r));
          return;
        }
      }
      size := Fill(EncodeRune(r));
      return size, None;
    }

    /** Lines 771-781: reads until there is something, at most 100 times. */
    method ReadSome(r: S.Reader) returns (m: nat, e: Option<S.Error>, stuck: bool)
      requires Valid() && Available() > 0 && S.Honest(r.script)
      modifies r, buf
      ensures S.Honest(r.script) && m <= Available() && buf[..n] == old(buf[..n])
      ensures S.Input(old(r.script)) == buf[n..n + m] + (if e.Some? then [] else S.Input(r.script))
      ensures stuck ==> m == 0 && e.None?
      ensures S.FinalError(old(r.script)) == if e.Some? then e.value else S.FinalError(r.script)
      ensures e.None? ==> S.Size(r.script) < S.Size(old(r.script))
    {
      var nr := 0;
      while true
        invariant 0 <= nr < 100
        invariant S.Honest(r.script) && buf[..n] == old(buf[..n])
        invariant S.Input(r.script) == S.Input(old(r.script)) && S.FinalError(r.script) == S.FinalError(old(r.script))
        invariant S.Size(r.script) <= S.Size(old(r.script))
        decreases 100 - nr
      {
        var c, e0 := r.Read(buf, n);
        m, e := c, e0;
        if m != 0 || e.Some? {
          return m, e, false;
        }
        assert buf[n..n] == [];
        nr := nr + 1;
        if nr == 100 {
          return 0, None, true;
        }
      }
    }

    /** Lines 766-770 and 790-791 */
    method FlushIfFull() returns (e: Option<Error>)
      requires Valid() && err.None?
      modifies this, buf, wr
      ensures Valid() && Sticky() && Stream() == old(Stream()) && e == err
      ensures e.None? ==> Available() > 0
    {
      if Available() == 0 {
        e := Flush();
      } else {
        e := None;
      }
    }

    /** Lines 771-783 */
    method Take(r: S.Reader) returns (m: nat, e: Option<S.Error>, stuck: bool, ghost got: Text)
      requires Valid() && Available() > 0 && err.None? && S.Honest(r.script)
      modifies this`n, r, buf
      ensures Valid() && S.Honest(r.script)
      ensures |got| == m && Stream() == old(Stream()) + got
      ensures S.Input(old(r.script)) == got + (if e.Some? then [] else S.Input(r.script))
      ensures stuck ==> m == 0 && e.None?
      ensures S.FinalError(old(r.script)) == if e.Some? then e.value else S.FinalError(r.script)
      ensures e.None? ==> S.Size(r.script) < S.Size(old(r.script))
    {
      ghost var front := buf[..n];
      m, e, stuck := ReadSome(r);
      got := buf[n..n + m];
      n := n + m;
      assert buf[..n] == front + got;
      assert wr.content + (front + got) == (wr.content + front) + got;
    }

    /** Line 753: ReadFrom, for a sink without ReadFrom of its own. */
    method ReadFrom(r: S.Reader) returns (nn: nat, e: Option<ReadFromError>, ghost taken: Text)
      requires Valid() && S.Honest(r.script)
      modifies this, buf, wr, r
      ensures Valid() && Sticky()
      ensures |taken| == nn && Stream() == old(Stream()) + taken
      ensures taken <= S.Input(old(r.script))
      ensures e.None? ==> taken == S.Input(old(r.script)) && S.FinalError(old(r.script)) == S.EOF
      ensures old(err).Some? ==> nn == 0 && e == Some(OfSink(err.value))
    {
      hide S.Input, S.FinalError, S.Size, S.Honest;
      nn, taken := 0, [];
      if err.Some? {
        return 0, Some(OfSink(err.value)), [];
      }
      var last: Option<S.Error>;
      ghost var input := S.Input(r.script);
      assert Stream() == old(Stream()) + [];
      while true
        invariant Valid() && Sticky() && S.Honest(r.script) && err.None?
        invariant |taken| == nn && Stream() == old(Stream()) + taken
        invariant input == taken + S.Input(r.script)
        invariant S.FinalError(r.script) == S.FinalError(old(r.script))
        decreases S.Size(r.script)
      {
        var e1 := FlushIfFull();
        if e1.Some? {
          return nn, Some(OfSink(e1.value)), taken;
        }
        var m, e0, stuck, got := Take(r);
        last := e0;
        if stuck {
          return nn, Some(NoProgress), taken;
        }
        nn := nn + m;
        Assoc(old(Stream()), taken, got);
        Assoc(taken, got, S.Input(r.script));
        taken := taken + got;
        if last.Some? {
          break;
        }
      }
      assert taken == input;
      if last == Some(S.EOF) {
        var e1 := FlushIfFull();
        return nn, if e1.Some? then Some(OfSink(e1.value)) else None, taken;
      }
      return nn, Some(OfReader(last.value)), taken;
    }
  }

  // ----- runs of calls -----

  /** CopyFrom is ReadFrom on a reader of these answers, ResetTo is Reset to a new sink. */
  datatype Call =
    | WriteBytes(p: Text)
    | WriteText(p: Text)
    | PutByte(c: Byte)
    | PutRune(r: int)
    | FlushCall
    | CopyFrom(source: seq<S.Answer>)
    | ResetTo(script: seq<Answer>)

  method PerformOne(w: Writer, call: Call) returns (taken: Text)
    requires w.Valid() && !call.ResetTo? && (call.CopyFrom? ==> S.Honest(call.source))
    modifies w, w.buf, w.wr
    ensures w.Valid() && w.Sticky() && w.Stream() == old(w.Stream()) + taken
    ensures old(w.err).Some? ==> taken == []
  {
    hide EncodeRune, S.Honest, S.Input, S.FinalError;
    match call
    case WriteBytes(p) =>
      var nn, e := w.Write(p);
      taken := p[..nn];
    case WriteText(p) =>
      var nn, e := w.WriteString(p);
      taken := p[..nn];
    case PutByte(c) =>
      var e := w.WriteByte(c);
      taken := if e.None? then [c] else [];
    case PutRune(r) =>
      var size, e := w.WriteRune(r);
      taken := EncodeRune(r)[..size];
    case FlushCall =>
      var e := w.Flush();
      taken := [];
    case CopyFrom(source) =>
      taken := PerformCopy(w, source);
  }

  method PerformCopy(w: Writer, source: seq<S.Answer>) returns (copied: Text)
    requires w.Valid() && S.Honest(source)
    modifies w, w.buf, w.wr
    ensures w.Valid() && w.Sticky() && w.Stream() == old(w.Stream()) + copied
    ensures copied <= S.Input(source)
    ensures old(w.err).Some? ==> copied == []
  {
    hide S.Honest, S.Input, S.FinalError;
    var r := new S.Reader(source);
    var nn, e, taken := w.ReadFrom(r);
    copied := S.Input(source)[..nn];
  }

  /** What the calls up to a Reset have reported as accepted, and the sink they went to. */
  datatype Session = Session(sink: Sink, accepted: Text)

  /** What a session has to add to: the first one may find something. */
  function Base(first: Text, k: nat): Text { if k == 0 then first else [] }

  /** Any sequence of calls over any sinks: what the calls since the last Reset reported as
      accepted is, in order, what is in the sink and then in the buffer; an earlier sink has
      the beginning of what was accepted for it, the rest having been thrown away; and
      while an error is there, nothing is accepted and nothing reaches the sink. */
  method Perform(w: Writer, calls: seq<Call>) returns (sessions: seq<Session>)
    requires w.Valid() && forall k | 0 <= k < |calls| && calls[k].CopyFrom? :: S.Honest(calls[k].source)
    modifies w, w.buf, w.wr
    ensures w.Valid() && |sessions| == 1 + Resets(calls) && sessions[0].sink == old(w.wr)
    ensures var last := |sessions| - 1;
      w.wr == sessions[last].sink && w.Stream() == Base(old(w.Stream()), last) + sessions[last].accepted
    ensures forall k | 0 <= k < |sessions| - 1 ::
      sessions[k].sink.content <= Base(old(w.Stream()), k) + sessions[k].accepted
    ensures old(w.err).Some? ==> sessions[0].accepted == [] && sessions[0].sink.content == old(w.wr.content)
    ensures old(w.err).Some? && |sessions| == 1 ==> w.err == old(w.err)
  {
    hide S.Honest, Resets;
    sessions := [Session(w.wr, [])];
    NoResets();
    for i := 0 to |calls|
      invariant w.Valid() && w.buf == old(w.buf) && |sessions| == 1 + Resets(calls[..i]) && sessions[0].sink == old(w.wr)
      invariant var last := |sessions| - 1;
        w.wr == sessions[last].sink && w.Stream() == Base(old(w.Stream()), last) + sessions[last].accepted
      invariant |sessions| > 1 ==> fresh(w.wr)
      invariant forall k | 0 <= k < |sessions| - 1 ::
        sessions[k].sink != w.wr && sessions[k].sink.content <= Base(old(w.Stream()), k) + sessions[k].accepted
      invariant old(w.err).Some? ==> sessions[0].accepted == [] && sessions[0].sink.content == old(w.wr.content)
      invariant old(w.err).Some? && |sessions| == 1 ==> w.err == old(w.err)
    {
      ResetsSnoc(calls, i);
      if calls[i].ResetTo? {
        var sink := new Sink(calls[i].script);
        w.Reset(sink);
        sessions := sessions + [Session(sink, [])];
      } else {
        var last := |sessions| - 1;
        var taken := PerformOne(w, calls[i]);
        ghost var was := sessions[last].accepted;
        Assoc(Base(old(w.Stream()), last), was, taken);
        sessions := sessions[last := Session(w.wr, sessions[last].accepted + taken)];
      }
    }
    assert calls[..|calls|] == calls;
  }

  function Resets(calls: seq<Call>): nat {
    if calls == [] then 0 else Resets(calls[..|calls| - 1]) + if calls[|calls| - 1].ResetTo? then 1 else 0
  }

  lemma NoResets()
    ensures Resets([]) == 0
  {
  }

  lemma ResetsSnoc(calls: seq<Call>, i: nat)
    requires i < |calls|
    ensures Resets(calls[..i + 1]) == Resets(calls[..i]) + if calls[i].ResetTo? then 1 else 0
    ensures calls[..0] == []
  {
    assert calls[..i + 1][..i] == calls[..i];
  }

  /** The stream with the first nn bytes of p0 accepted. */
  ghost function Taken(stream: Text, p0: Text, nn: nat): Text
    requires nn <= |p0|
  {
    stream + p0[..nn]
  }

  lemma AllTaken(stream: Text, p0: Text, nn: nat)
    requires nn <= |p0|
    ensures Taken(stream, p0, nn) == stream + p0[..nn]
  {
  }

  lemma Advance(stream: Text, p0: Text, nn: nat, m: nat)
    requires nn + m <= |p0|
    ensures Taken(stream, p0, nn) + p0[nn..][..m] == Taken(stream, p0, nn + m)
    ensures p0[nn..][m..] == p0[nn + m..]
    ensures Taken(stream, p0, 0) == stream && p0[0..] == p0
  {
    assert p0[..nn] + p0[nn..][..m] == p0[..nn + m];
  }
}
