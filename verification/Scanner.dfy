/** bufio.Scanner: tokens from a sliding, growing buffer over a reader that may cut
    its data anywhere. */
module Scanner {
  import opened Common

  datatype Error =
    | EOF | ErrTooLong | ErrNegativeAdvance | ErrAdvanceTooFar | ErrBadReadCount | ErrNoProgress
    | ErrFinalToken | Other(code: nat)

  // ----- split functions -----

  /** What a SplitFunc returns; token None is nil. */
  datatype Split = Split(advance: int, token: Option<seq<Byte>>, err: Option<Error>)

  type SplitFunc = (seq<Byte>, bool) -> Split

  function Shift(k: int, a: Split): Split { a.(advance := k + a.advance) }

  /** The answer on what has been read so far does not change when more arrives: an
      answer with a token or an error stands, and after skipping some bytes the rest
      is handled as if it had been all there was. */
  ghost predicate Coherent(split: SplitFunc) {
    forall data: seq<Byte>, rest: seq<Byte>, eof: bool :: CoherentOn(split, data, rest, eof)
  }

  ghost predicate CoherentOn(split: SplitFunc, data: seq<Byte>, rest: seq<Byte>, eof: bool) {
    var a := split(data, false);
    if a.err.Some? then split(data + rest, eof) == a
    else
      && 0 <= a.advance <= |data|
      && (split(data, true).err.None? ==> 0 <= split(data, true).advance <= |data|)
      && (if a.token.Some? then split(data + rest, eof) == a
          else split(data + rest, eof) == Shift(a.advance, split(data[a.advance..] + rest, eof)))
  }

  /** The split function can do nothing with the data yet. */
  predicate NeedsMore(a: Split) { a.err.None? && a.token.None? && a.advance == 0 }

  // ----- the reader -----

  /** What a reader will answer: data, with an error or not, or a count that is out of
      range. */
  datatype Answer = Answer(data: seq<Byte>, err: Option<Error>) | Lie(count: int)

  /** The bytes up to the first error. */
  function Input(script: seq<Answer>): seq<Byte> {
    if script == [] then []
    else match script[0]
      case Lie(_) => []
      case Answer(data, err) => if err.Some? then data else data + Input(script[1..])
  }

  /** The error that ends them. A reader with nothing left says EOF. */
  function FinalError(script: seq<Answer>): Error {
    if script == [] then EOF
    else match script[0]
      case Lie(_) => ErrBadReadCount
      case Answer(_, err) => if err.Some? then err.value else FinalError(script[1..])
  }

  predicate IsEmpty(a: Answer) { a.Answer? && a.data == [] && a.err.None? }

  /** How many empty answers come next. */
  function EmptyRun(script: seq<Answer>): nat {
    if script == [] || !IsEmpty(script[0]) then 0 else 1 + EmptyRun(script[1..])
  }

  const MAX_EMPTY: nat := 100  // maxConsecutiveEmptyReads

  /** A reader as the contract of io.Reader wants it: no impossible counts, and no
      long runs of empty answers. */
  ghost predicate Behaves(script: seq<Answer>) { Lively(script, MAX_EMPTY) }

  /** No impossible counts, and never more than max empty answers in a row. */
  ghost predicate Lively(script: seq<Answer>, max: nat) {
    forall k | 0 <= k <= |script| :: EmptyRun(script[k..]) <= max && (k < |script| ==> script[k].Answer?)
  }

  /** No impossible counts. */
  predicate Honest(script: seq<Answer>) { forall k | 0 <= k < |script| :: script[k].Answer? }

  /** Any reader, as the answers it is going to give. */
  class Reader {
    var script: seq<Answer>

    constructor (script: seq<Answer>)
      ensures this.script == script
    {
      this.script := script;
    }

    /** Read(p[from:]). An answer longer than the room is handed out in parts. */
    method Read(p: array<Byte>, from: nat) returns (n: int, err: Option<Error>)
      requires from < p.Length
      modifies this, p
      ensures p[..from] == old(p[..from])
      ensures 0 <= n <= p.Length - from ==>
        && Input(old(script)) == p[from..from + n] + (if err.Some? then [] else Input(script))
        && FinalError(old(script)) == (if err.Some? then err.value else FinalError(script))
      ensures !(0 <= n <= p.Length - from) ==> err.None? && old(script) != [] && old(script)[0].Lie?
      ensures err.None? ==> Size(script) < Size(old(script))
      ensures err.None? && n == 0 ==> old(script) != [] && IsEmpty(old(script)[0]) && script == old(script)[1..]
      ensures forall max: nat :: Lively(old(script), max) ==> Lively(script, max)
      ensures Honest(old(script)) ==> Honest(script)
    {
      var room := p.Length - from;
      if script == [] {
        return 0, Some(EOF);
      }
      match script[0]
      case Lie(count) =>
        n, err := if 0 <= count <= room then -1 else count, None;
        LivelyTail(script);
        script := script[1..];
      case Answer(data, e) =>
        if |data| > room {
          CopyInto(p, from, data[..room]);
          SplitAnswer(script, room);
          n, err := room, None;
          script := [Answer(data[room..], e)] + script[1..];
        } else {
          CopyInto(p, from, data);
          LivelyTail(script);
          n, err := |data|, e;
          script := script[1..];
        }
    }
  }

  /** Bytes and answers still to come. */
  function Size(script: seq<Answer>): nat {
    if script == [] then 0
    else 1 + (if script[0].Answer? then |script[0].data| else 0) + Size(script[1..])
  }

  lemma LivelyTail(script: seq<Answer>)
    requires script != []
    ensures forall max: nat :: Lively(script, max) ==> Lively(script[1..], max)
  {
    forall max: nat | Lively(script, max)
      ensures Lively(script[1..], max)
    {
      forall k | 0 <= k <= |script| - 1
        ensures EmptyRun(script[1..][k..]) <= max && (k < |script| - 1 ==> script[1..][k].Answer?)
      {
        assert script[1..][k..] == script[k + 1..];
      }
    }
  }

  lemma SplitAnswer(script: seq<Answer>, room: nat)
    requires script != [] && script[0].Answer? && room < |script[0].data|
    ensures var script' := [Answer(script[0].data[room..], script[0].err)] + script[1..];
      && Input(script) == script[0].data[..room] + Input(script')
      && FinalError(script) == FinalError(script')
      && (room > 0 ==> Size(script') < Size(script))
      && (forall max: nat :: Lively(script, max) ==> Lively(script', max))
  {
    hide Lively, Input, FinalError, Size;
    SplitInput(script, room);
    SplitLively(script, room);
  }

  lemma SplitInput(script: seq<Answer>, room: nat)
    requires script != [] && script[0].Answer? && room < |script[0].data|
    ensures var script' := [Answer(script[0].data[room..], script[0].err)] + script[1..];
      && Input(script) == script[0].data[..room] + Input(script')
      && FinalError(script) == FinalError(script')
      && (room > 0 ==> Size(script') < Size(script))
  {
    var data, tail := script[0].data, script[1..];
    var script' := [Answer(data[room..], script[0].err)] + tail;
    assert script'[0] == Answer(data[room..], script[0].err) && script'[1..] == tail;
    SliceJoin(data, room, Input(tail));
  }

  lemma SliceJoin(data: seq<Byte>, room: nat, rest: seq<Byte>)
    requires room <= |data|
    ensures data == data[..room] + data[room..]
    ensures data + rest == data[..room] + (data[room..] + rest)
  {
  }

  lemma SplitLively(script: seq<Answer>, room: nat)
    requires script != [] && script[0].Answer? && room < |script[0].data|
    ensures var script' := [Answer(script[0].data[room..], script[0].err)] + script[1..];
      forall max: nat :: Lively(script, max) ==> Lively(script', max)
  {
    hide Input, FinalError, Size;
    var script' := [Answer(script[0].data[room..], script[0].err)] + script[1..];
    forall max: nat | Lively(script, max)
      ensures Lively(script', max)
    {
      forall k | 0 <= k <= |script'|
        ensures EmptyRun(script'[k..]) <= max && (k < |script'| ==> script'[k].Answer?)
      {
        if k > 0 {
          assert script'[k..] == script[k..];
          assert EmptyRun(script[k..]) <= max;
        } else {
          assert !IsEmpty(script'[0]) && script'[0..] == script';
        }
      }
    }
  }

  // ----- the scanner -----

  const MAX_SCAN_TOKEN_SIZE: nat := 65536
  const START_BUF_SIZE: nat := 4096
  const MAX_INT: int := 0x7FFF_FFFF_FFFF_FFFF

  /** Scan returns true with a token, returns false, or panics. */
  datatype Result = Token | Stop | Panic

  /** With k bytes skipped the buffer is full of the bytes u[k..k + l] and may not grow,
      and the split function can do nothing with them. */
  ghost predicate Stuck(split: SplitFunc, u: seq<Byte>, max: int, k: nat, l: nat) {
    && k + l <= |u| && Progress(split, u, k) && (l >= max || l > MAX_INT / 2)
    && (l == 0 || NeedsMore(split(u[k..k + l], false)))
  }

  class Scanner {
    const r: Reader
    var split: SplitFunc
    var maxTokenSize: int
    var token: Option<seq<Byte>>
    var buf: array<Byte>
    var start: nat
    var end: nat
    var err: Option<Error>
    var empties: nat
    var scanCalled: bool
    var done: bool

    ghost predicate Valid()
      reads this
    {
      start <= end <= buf.Length
    }

    /** What the client has not been given yet. */
    ghost function Unread(): seq<Byte>
      reads this, buf, r
      requires Valid()
    {
      buf[start..end] + (if err.Some? then [] else Input(r.script))
    }

    /** The error scanning ends with. */
    ghost function Final(): Error
      reads this, r
    {
      if err.Some? then err.value else FinalError(r.script)
    }

    /** Line 95: NewScanner */
    constructor (r: Reader)
      ensures Valid() && this.r == r && fresh(buf)
      ensures split == ScanLines && maxTokenSize == MAX_SCAN_TOKEN_SIZE
      ensures Unread() == Input(r.script) && err == None && !done && empties == 0
    {
      this.r := r;
      split := ScanLines;
      maxTokenSize := MAX_SCAN_TOKEN_SIZE;
      token := None;
      buf := new Byte[0];
      start, end := 0, 0;
      err := None;
      empties := 0;
      scanCalled, done := false, false;
    }

    /** Line 105: Err */
    function Err(): Option<Error>
      reads this
    {
      if err == Some(EOF) then None else err
    }

    /** Line 261: setErr */
    method SetErr(e: Error)
      modifies this`err
      ensures err == if old(err).None? || old(err) == Some(EOF) then Some(e) else old(err)
    {
      if err.None? || err == Some(EOF) {
        err := Some(e);
      }
    }

    /** Line 247: advance */
    method Advance(n: int) returns (ok: bool)
      requires Valid()
      modifies this`start, this`err
      ensures Valid()
      ensures ok <==> 0 <= n <= old(end - start)
      ensures ok ==> start == old(start) + n && err == old(err)
      ensures ok ==> buf[start..end] == old(buf[start..end])[n..]
      ensures !ok ==> start == old(start) && err.Some?
    {
      if n < 0 {
        SetErr(ErrNegativeAdvance);
        return false;
      }
      if n > end - start {
        SetErr(ErrAdvanceTooFar);
        return false;
      }
      start := start + n;
      return true;
    }

    /** Lines 193-218: slides the data to the front or moves it to a larger buffer. */
    method MakeRoom() returns (ok: bool)
      requires Valid() && err.None?
      modifies this, buf
      ensures Valid() && (buf == old(buf) || fresh(buf))
      ensures buf[start..end] == old(buf[start..end])
      ensures unchanged(this`split) && unchanged(this`maxTokenSize) && unchanged(this`done) && unchanged(this`token) && unchanged(this`empties)
      ensures ok ==> end < buf.Length && err.None?
      ensures !ok ==> err == Some(ErrTooLong) && old(start) == 0 && old(end) == buf.Length
      ensures !ok ==> buf.Length >= maxTokenSize || buf.Length > MAX_INT / 2
    {
      if start > 0 && (end == buf.Length || start > buf.Length / 2) {
        CopyWithin(buf, start, end);
        end := end - start;
        start := 0;
      }
      if end == buf.Length {
        if buf.Length >= maxTokenSize || buf.Length > MAX_INT / 2 {
          SetErr(ErrTooLong);
          return false;
        }
        var newSize: int := buf.Length * 2;
        if newSize == 0 {
          newSize := START_BUF_SIZE;
        }
        if newSize > maxTokenSize {
          newSize := maxTokenSize;
        }
        var newBuf := new Byte[newSize](_ => 0);
        CopyInto(newBuf, 0, buf[start..end]);
        buf := newBuf;
        end := end - start;
        start := 0;
      }
      return true;
    }

    /** Lines 223-228: one call of the reader. */
    method ReadOnce() returns (n: int, e: Option<Error>, ok: bool)
      requires Valid() && err.None? && end < buf.Length
      modifies this`end, buf, r
      ensures Valid() && buf == old(buf)
      ensures ok ==> n >= 0 && end == old(end) + n
      ensures ok ==> buf[start..end] + (if e.Some? then [] else Input(r.script)) == old(Unread())
      ensures ok ==> (if e.Some? then e.value else FinalError(r.script)) == old(Final())
      ensures !ok ==> e.None? && buf[start..end] == old(Unread()) && old(Final()) == ErrBadReadCount
      ensures e.None? ==> Size(r.script) < Size(old(r.script))
      ensures ok && n == 0 && e.None? ==> EmptyRun(old(r.script)) == 1 + EmptyRun(r.script)
      ensures Behaves(old(r.script)) ==> Behaves(r.script)
    {
      hide Lively, Size;
      ghost var had := buf[start..end];
      n, e := r.Read(buf, end);
      assert buf[start..end] == buf[..end][start..end] == had;
      ok := !(n < 0 || buf.Length - end < n);
      if ok {
        assert buf[start..end + n] == had + buf[end..end + n];
        end := end + n;
      }
    }

    /** Lines 222-242: reads until there is data or an error. */
    method Fill()
      requires Valid() && err.None? && end < buf.Length
      modifies this, buf, r
      ensures Valid() && buf == old(buf)
      ensures unchanged(this`split) && unchanged(this`maxTokenSize) && unchanged(this`done) && unchanged(this`token)
      ensures (Unread() == old(Unread()) && Final() == old(Final())) || err == Some(ErrNoProgress)
      ensures err.None? ==> Size(r.script) < Size(old(r.script))
      ensures empties <= old(empties)
      ensures Behaves(old(r.script)) ==> Behaves(r.script) && Unread() == old(Unread()) && Final() == old(Final())
    {
      var loop := 0;
      while true
        invariant Valid() && buf == old(buf) && err.None? && end < buf.Length
        invariant unchanged(this`split) && unchanged(this`maxTokenSize) && unchanged(this`done) && unchanged(this`token)
        invariant Unread() == old(Unread()) && Final() == old(Final())
        invariant Size(r.script) <= Size(old(r.script))
        invariant loop + EmptyRun(r.script) == EmptyRun(old(r.script)) && loop <= MAX_EMPTY
        invariant Behaves(old(r.script)) ==> Behaves(r.script)
        invariant empties == old(empties)
        decreases Size(r.script)
      {
        hide Input, FinalError, Size, EmptyRun, Behaves;
        var n, e, ok := ReadOnce();
        if !ok {
          SetErr(ErrBadReadCount);
          break;
        }
        if e.Some? {
          SetErr(e.value);
          break;
        }
        if n > 0 {
          empties := 0;
          break;
        }
        loop := loop + 1;
        if loop > MAX_EMPTY {
          BehavesRun(old(r.script));
          SetErr(ErrNoProgress);
          break;
        }
      }
    }

    /** Line 144: Scan. For a coherent split function the outcome is that of applying
        it once to everything unread, at the end of the input: the same token, with
        the same bytes consumed. Scanning stops without a token only if there is none,
        or with one of the recorded errors. */
    method Scan() returns (res: Result)
      requires Valid()
      modifies this, buf, r
      ensures Valid() && (buf == old(buf) || fresh(buf))
      ensures split == old(split) && maxTokenSize == old(maxTokenSize)
      ensures old(done) ==> res.Stop? && Unread() == old(Unread()) && err == old(err) && done && r.script == old(r.script)
      ensures Coherent(split) && Behaves(old(r.script)) && !old(done) ==>
        var u, a := old(Unread()), split(old(Unread()), true);
        match res
        case Token =>
          && token == a.token
          && (if a.err.Some? then a.err == Some(ErrFinalToken) && done
              else a.token.Some? && 0 <= a.advance <= |u| && Unread() == u[a.advance..] && Final() == old(Final()) && !done)
        case Panic => exists k :: 0 <= k <= |u| && StandsStill(split(u[k..], true))
        case Stop =>
          || (a.err.None? && a.token.None? && err == Some(old(Final())))
          || (a.err.Some? && a.err != Some(ErrFinalToken) && (err == a.err || err == Some(old(Final()))))
          || (err == Some(ErrTooLong) && exists k: nat, l: nat :: Stuck(split, u, maxTokenSize, k, l))
      ensures Behaves(old(r.script)) ==> Behaves(r.script)
      ensures res.Panic? ==> old(empties) >= MAX_EMPTY
      ensures res.Token? && !done ==> empties <= MAX_EMPTY
    {
      if done {
        return Stop;
      }
      hide Coherent, CoherentOn, Input, FinalError, Size, Behaves, EmptyRun, Progress, Stuck, NeedsMore, StandsStill, Shift;
      scanCalled := true;
      ghost var u: seq<Byte>, k: nat := Unread(), 0;
      ghost var final := Final();
      ProgressStart(split, u);
      while true
        invariant Valid() && (buf == old(buf) || fresh(buf)) && !done
        invariant split == old(split) && maxTokenSize == old(maxTokenSize)
        invariant Coherent(split) && Behaves(old(r.script)) ==> k <= |u| && Progress(split, u, k) && Unread() == u[k..] && Final() == final
        invariant Behaves(old(r.script)) ==> Behaves(r.script)
        invariant empties <= old(empties)
        decreases if err.None? then 1 + Size(r.script) else 0
      {
        ghost var known := Coherent(split) && Behaves(old(r.script));
        var out;
        out, k := SplitOnce(u, k, known);
        match out
        case Yield => return Token;
        case Halt => return Stop;
        case Panics => return Panic;
        case More =>
          if err.Some? {
            start := 0;
            end := 0;
            return Stop;
          }
          var ok := GetMore(u, k, known);
          if !ok {
            return Stop;
          }
      }
    }

    /** Lines 190-242: more data, if there is room for it. */
    method GetMore(ghost u: seq<Byte>, ghost k: nat, ghost known: bool) returns (ok: bool)
      requires Valid() && !done && err.None?
      requires known ==> Progress(split, u, k) && k <= |u| && Unread() == u[k..]
      requires known && start == 0 && end > 0 ==> NeedsMore(split(buf[start..end], false))
      modifies this, buf, r
      ensures Valid() && (buf == old(buf) || fresh(buf)) && !done && split == old(split) && maxTokenSize == old(maxTokenSize)
      ensures !ok ==> err == Some(ErrTooLong) && r.script == old(r.script)
      ensures !ok && known ==> exists k: nat, l: nat :: Stuck(split, u, maxTokenSize, k, l)
      ensures ok && err.None? ==> Size(r.script) < Size(old(r.script))
      ensures empties <= old(empties)
      ensures Behaves(old(r.script)) ==> Behaves(r.script) && (ok ==> Unread() == old(Unread()) && Final() == old(Final()))
    {
      hide Input, FinalError, Size, Behaves, EmptyRun, Progress, Stuck, NeedsMore;
      ghost var held := buf[start..end];
      assert held <= Unread();
      ok := MakeRoom();
      if !ok {
        if known { StuckWhere(split, u, maxTokenSize, k, held); }
        return false;
      }
      Fill();
    }

    /** Lines 154-181: one use of the split function on what is buffered. */
    method SplitOnce(ghost u: seq<Byte>, ghost k: nat, ghost known: bool) returns (out: Outcome, ghost k': nat)
      requires Valid() && !done
      requires known ==> Coherent(split) && k <= |u| && Progress(split, u, k) && Unread() == u[k..]
      modifies this`start, this`err, this`token, this`empties, this`done
      ensures Valid()
      ensures out.More? ==> err == old(err) && empties == old(empties) && !done
      ensures out.Panics? ==> old(empties) >= MAX_EMPTY
      ensures out.Yield? && !done ==>
        empties <= MAX_EMPTY && (old(err).Some? && |Unread()| == |old(Unread())| ==> empties == old(empties) + 1)
      ensures known ==>
        var a := split(u, true);
        match out
        case Yield =>
          && token == a.token
          && (if a.err.Some? then a.err == Some(ErrFinalToken) && done
              else a.token.Some? && 0 <= a.advance <= |u| && Unread() == u[a.advance..] && err == old(err) && !done)
        case Panics => StandsStill(split(u[k..], true))
        case Halt => a.err.Some? && a.err != Some(ErrFinalToken) && (err == a.err || (err == old(err) && err.Some?))
        case More =>
          && k' <= |u| && Unread() == u[k'..]
          && (if err.Some? then a.err.None? && a.token.None? else Progress(split, u, k'))
          && (err.None? && start == 0 && end > 0 ==> NeedsMore(split(buf[start..end], false)))
    {
      k' := k;
      if end == start && err.None? {
        return More, k';
      }
      var a := split(buf[start..end], err.Some?);
      ghost var rest := if err.Some? then [] else Input(r.script);
      if known { Decided(split, u, k, buf[start..end], rest, err.Some?); }
      hide Coherent, Progress, Input, Shift, NeedsMore;
      if a.err.Some? {
        if a.err.value == ErrFinalToken {
          token := a.token;
          done := true;
          return Yield, k';
        }
        SetErr(a.err.value);
        return Halt, k';
      }
      out := Deliver(a);
      if known { k' := k + a.advance; }
    }

    /** Lines 165-181: consumes what the split function used and hands out its token. */
    method Deliver(a: Split) returns (out: Outcome)
      requires Valid()
      modifies this`start, this`err, this`token, this`empties
      ensures Valid()
      ensures out.Halt? <==> !(0 <= a.advance <= old(end - start))
      ensures !out.Halt? ==> err == old(err) && token == a.token && start == old(start) + a.advance
      ensures !out.Halt? ==> buf[start..end] == old(buf[start..end])[a.advance..]
      ensures out.More? <==> 0 <= a.advance <= old(end - start) && a.token.None?
      ensures out.More? ==> empties == old(empties)
      ensures out.Panics? ==> a.token.Some? && a.advance == 0 && err.Some? && old(empties) >= MAX_EMPTY
      ensures out.Yield? ==> empties <= MAX_EMPTY && (err.Some? && a.advance == 0 ==> empties == old(empties) + 1)
    {
      var ok := Advance(a.advance);
      if !ok {
        return Halt;
      }
      token := a.token;
      if a.token.Some? {
        if err.None? || a.advance > 0 {
          empties := 0;
        } else {
          empties := empties + 1;
          if empties > MAX_EMPTY {
            return Panics;
          }
        }
        return Yield;
      }
      return More;
    }
  }

  /** A token without progress. */
  predicate StandsStill(a: Split) { a.token.Some? && a.advance == 0 }

  /** What SplitOnce leads to: a token, an error, a panic, or a need for more data. */
  datatype Outcome = Yield | Halt | Panics | More

  /** A full buffer at the front of which nothing was skipped. */
  lemma StuckWhere(split: SplitFunc, u: seq<Byte>, max: int, k: nat, data: seq<Byte>)
    requires Progress(split, u, k) && data <= u[k..] && (|data| >= max || |data| > MAX_INT / 2)
    requires |data| > 0 ==> NeedsMore(split(data, false))
    ensures exists k: nat, l: nat :: Stuck(split, u, max, k, l)
  {
    hide NeedsMore;
    assert data == u[k..k + |data|];
    assert Stuck(split, u, max, k, |data|);
  }

  /** Having skipped k bytes, the answer for everything is the answer for the rest. */
  ghost predicate Progress(split: SplitFunc, u: seq<Byte>, k: nat) {
    k <= |u| && split(u, true) == Shift(k, split(u[k..], true))
  }

  lemma ProgressStart(split: SplitFunc, u: seq<Byte>)
    ensures Progress(split, u, 0)
  {
    assert u[0..] == u;
  }

  /** What an answer on the buffered data says about everything, rest being what is
      still to be read. */
  lemma Decided(split: SplitFunc, u: seq<Byte>, k: nat, data: seq<Byte>, rest: seq<Byte>, eof: bool)
    requires Coherent(split) && k <= |u| && Progress(split, u, k) && u[k..] == data + rest && (eof ==> rest == [])
    ensures var a, w := split(data, eof), split(u, true);
      && (a.err.Some? ==> w.err == a.err && w.token == a.token)
      && (a.err.None? ==> 0 <= a.advance <= |data| && u[k + a.advance..] == data[a.advance..] + rest)
      && (a.err.None? && (a.token.Some? || eof) ==> w == Split(k + a.advance, a.token, None))
      && (a.err.None? && a.token.None? && !eof ==>
            Progress(split, u, k + a.advance) && (a.advance == 0 ==> NeedsMore(a)))
      && (eof ==> split(u[k..], true) == a)
  {
    var a := split(data, eof);
    assert CoherentOn(split, data, rest, true);
    assert data + [] == data;
    if a.err.None? {
      assert u[k + a.advance..] == u[k..][a.advance..] == data[a.advance..] + rest;
    }
  }

  lemma BehavesRun(script: seq<Answer>)
    ensures Behaves(script) ==> EmptyRun(script) <= MAX_EMPTY
  {
    assert script[0..] == script;
  }

  // ----- scanning to the end -----

  /** A coherent split function that never fails and gives no token without progress. */
  ghost predicate Steady(split: SplitFunc) {
    Coherent(split) && forall u: seq<Byte> :: Advances(split(u, true), |u|)
  }

  predicate Advances(a: Split, n: nat) {
    a.err.None? && 0 <= a.advance <= n && (a.token.Some? ==> a.advance > 0)
  }

  /** The tokens of a text, the split function having all of it at once. */
  function Tokens(split: SplitFunc, u: seq<Byte>): seq<seq<Byte>>
    decreases |u|
  {
    var a := split(u, true);
    if a.token.None? || !(0 < a.advance <= |u|) then [] else [a.token.value] + Tokens(split, u[a.advance..])
  }

  /** The limit on the buffer is never in the way. */
  ghost predicate Fits(split: SplitFunc, u: seq<Byte>, max: int)
    decreases |u|
  {
    && (forall k: nat, l: nat :: !Stuck(split, u, max, k, l))
    && (var a := split(u, true); a.token.Some? && 0 < a.advance <= |u| ==> Fits(split, u[a.advance..], max))
  }

  /** Scanning to the end, as the documentation shows it: for every reader that keeps its
      contract, however it cuts the text, the tokens are those of the whole text, and Err
      then reports the reader's error, none if that is EOF. */
  method ScanAll(s: Scanner) returns (tokens: seq<seq<Byte>>)
    requires s.Valid() && !s.done && Steady(s.split)
    requires Behaves(s.r.script) && Fits(s.split, s.Unread(), s.maxTokenSize)
    modifies s, s.buf, s.r
    ensures tokens == Tokens(old(s.split), old(s.Unread()))
    ensures s.err == Some(old(s.Final()))
    ensures s.Err() == if old(s.Final()) == EOF then None else Some(old(s.Final()))
  {
    hide Behaves, Fits, Tokens, Input, FinalError, Steady;
    tokens := [];
    ghost var all := Tokens(s.split, s.Unread());
    var more := true;
    while more
      invariant s.Valid() && s.maxTokenSize == old(s.maxTokenSize)
      invariant s.buf == old(s.buf) || fresh(s.buf)
      invariant more ==> !s.done && s.split == old(s.split)
      invariant more ==> Behaves(s.r.script) && Fits(s.split, s.Unread(), s.maxTokenSize)
      invariant more ==> all == tokens + Tokens(s.split, s.Unread()) && s.Final() == old(s.Final())
      invariant !more ==> all == tokens && s.err == Some(old(s.Final()))
      decreases more, |s.Unread()|
    {
      ghost var before := tokens;
      more := ScanNext(s);
      if more {
        tokens := tokens + [s.token.value];
        assert before + ([s.token.value] + Tokens(s.split, s.Unread())) == tokens + Tokens(s.split, s.Unread());
      } else {
        assert before + [] == before;
      }
    }
  }

  /** One round of the loop. */
  method ScanNext(s: Scanner) returns (ok: bool)
    requires s.Valid() && !s.done && Steady(s.split)
    requires Behaves(s.r.script) && Fits(s.split, s.Unread(), s.maxTokenSize)
    modifies s, s.buf, s.r
    ensures s.Valid() && (s.buf == old(s.buf) || fresh(s.buf)) && s.maxTokenSize == old(s.maxTokenSize)
    ensures ok ==> !s.done && s.split == old(s.split) && s.token.Some? && |s.Unread()| < |old(s.Unread())|
    ensures ok ==> Tokens(s.split, old(s.Unread())) == [s.token.value] + Tokens(s.split, s.Unread()) && s.Final() == old(s.Final())
    ensures ok ==> Behaves(s.r.script) && Fits(s.split, s.Unread(), s.maxTokenSize)
    ensures !ok ==> Tokens(old(s.split), old(s.Unread())) == [] && s.err == Some(old(s.Final()))
  {
    hide Behaves, Tokens, Input, FinalError, Coherent, Stuck, StandsStill;
    ghost var u := s.Unread();
    TokensStep(s.split, u);
    NeverStill(s.split, u);
    var res := s.Scan();
    return res.Token?;
  }

  lemma TokensStep(split: SplitFunc, u: seq<Byte>)
    requires Steady(split)
    ensures var a := split(u, true);
      && a.err.None?
      && (a.token.Some? ==> 0 < a.advance <= |u| && Tokens(split, u) == [a.token.value] + Tokens(split, u[a.advance..]))
      && (a.token.None? ==> Tokens(split, u) == [])
  {
    assert Advances(split(u, true), |u|);
  }

  lemma NeverStill(split: SplitFunc, u: seq<Byte>)
    requires Steady(split)
    ensures forall k | 0 <= k <= |u| :: !StandsStill(split(u[k..], true))
  {
    forall k | 0 <= k <= |u|
      ensures !StandsStill(split(u[k..], true))
    {
      assert Advances(split(u[k..], true), |u[k..]|);
    }
  }

  // ----- lines -----

  /** Line 349: dropCR */
  function DropCR(data: seq<Byte>): seq<Byte> {
    if |data| > 0 && data[|data| - 1] == CR then data[..|data| - 1] else data
  }

  /** Line 366: ScanLines */
  function ScanLines(data: seq<Byte>, atEOF: bool): Split {
    if atEOF && |data| == 0 then Split(0, None, None)
    else
      var i := IndexByte(data, NL);
      if i >= 0 then Split(i + 1, Some(DropCR(data[..i])), None)
      else if atEOF then Split(|data|, Some(DropCR(data)), None)
      else Split(0, None, None)
  }

  /** A line found in a prefix is the line found in any extension. */
  lemma ScanLinesCoherent()
    ensures Coherent(ScanLines)
  {
    forall data: seq<Byte>, rest: seq<Byte>, eof: bool
      ensures CoherentOn(ScanLines, data, rest, eof)
    {
      var i := IndexByte(data, NL);
      if i >= 0 {
        IndexByteSpec(data, NL);
        assert (data + rest)[..i] == data[..i];
        IndexByteUnique(data + rest, NL, i);
      } else {
        assert data[0..] == data;
      }
    }
  }

  /** The lines of a text: cut after every newline, the newline and one carriage return
      before it dropped; what follows the last newline is a line if it is not empty. */
  function Lines(s: seq<Byte>): seq<seq<Byte>>
    decreases |s|
  {
    if s == [] then []
    else
      var i := IndexByte(s, NL);
      if i < 0 then [DropCR(s)] else [DropCR(s[..i])] + Lines(s[i + 1..])
  }

  /** Every line, its newline not counted, is shorter than max. */
  predicate ShortLines(s: seq<Byte>, max: int)
    decreases |s|
  {
    s == [] ||
    var i := IndexByte(s, NL);
    if i < 0 then |s| < max else i < max && ShortLines(s[i + 1..], max)
  }

  lemma {:induction false} ShortWindow(s: seq<Byte>, max: int, k: nat, l: nat)
    requires ShortLines(s, max) && 0 < max <= l && k + l <= |s|
    ensures IndexByte(s[k..k + l], NL) >= 0
    decreases |s|
  {
    var i := IndexByte(s, NL);
    IndexByteSpec(s, NL);
    IndexByteSpec(s[k..k + l], NL);
    if i >= 0 {
      if k <= i {
        assert s[k..k + l][i - k] == NL;
      } else {
        assert s[i + 1..][k - i - 1..k - i - 1 + l] == s[k..k + l];
        ShortWindow(s[i + 1..], max, k - i - 1, l);
      }
    }
  }

  /** The buffer limit is never in the way of short lines. */
  lemma ShortLinesFit(s: seq<Byte>, max: int, k: nat, l: nat)
    requires ShortLines(s, max) && 0 < max <= MAX_INT / 2
    ensures !Stuck(ScanLines, s, max, k, l)
  {
    if k + l <= |s| && l >= max { ShortWindow(s, max, k, l); }
  }

  lemma LinesStep(s: seq<Byte>)
    ensures var a := ScanLines(s, true);
      && a.err.None?
      && (a.token.None? <==> s == [])
      && (a.token.Some? ==> 0 < a.advance <= |s| && Lines(s) == [a.token.value] + Lines(s[a.advance..]))
  {
    if s != [] && IndexByte(s, NL) < 0 { assert s[|s|..] == []; }
  }

  lemma ShortTail(s: seq<Byte>, max: int)
    requires ShortLines(s, max) && s != []
    ensures ShortLines(s[ScanLines(s, true).advance..], max)
  {
    if IndexByte(s, NL) < 0 { assert s[|s|..] == []; }
  }

  /** For every reader that keeps its contract, however it cuts the text, and every text
      whose lines are shorter than the limit, the tokens are exactly the lines, and Err
      then reports the reader's error, none if that is EOF. */
  method ScanAllLines(s: Scanner) returns (lines: seq<seq<Byte>>)
    requires s.Valid() && !s.done && s.split == ScanLines && 0 < s.maxTokenSize <= MAX_INT / 2
    requires Behaves(s.r.script) && ShortLines(s.Unread(), s.maxTokenSize)
    modifies s, s.buf, s.r
    ensures lines == Lines(old(s.Unread()))
    ensures s.err == Some(old(s.Final()))
    ensures s.Err() == if old(s.Final()) == EOF then None else Some(old(s.Final()))
  {
    hide Behaves, ShortLines, Lines, Input, FinalError, Steady, Fits, Tokens;
    ScanLinesSteady();
    LinesAreTokens(s.Unread(), s.maxTokenSize);
    lines := ScanAll(s);
  }

  lemma ScanLinesSteady()
    ensures Steady(ScanLines)
  {
    ScanLinesCoherent();
  }

  lemma {:induction false} LinesAreTokens(u: seq<Byte>, max: int)
    requires ShortLines(u, max) && 0 < max <= MAX_INT / 2
    ensures Tokens(ScanLines, u) == Lines(u) && Fits(ScanLines, u, max)
    decreases |u|
  {
    hide ShortLines, Lines, ScanLines, Stuck;
    LinesStep(u);
    EmptyLines();
    if u != [] {
      ShortTail(u, max);
      LinesAreTokens(u[ScanLines(u, true).advance..], max);
    }
    forall k: nat, l: nat
      ensures !Stuck(ScanLines, u, max, k, l)
    {
      ShortLinesFit(u, max, k, l);
    }
  }

  lemma EmptyLines()
    ensures Lines([]) == []
  {
  }

  // ----- lines written out and read back -----

  /** Lines with their terminators, "\n" or "\r\n". */
  function Written(ls: seq<(seq<Byte>, bool)>): seq<Byte> {
    if ls == [] then [] else ls[0].0 + (if ls[0].1 then [CR, NL] else [NL]) + Written(ls[1..])
  }

  function Texts(ls: seq<(seq<Byte>, bool)>): seq<seq<Byte>> {
    if ls == [] then [] else [ls[0].0] + Texts(ls[1..])
  }

  /** A line that survives: no newline inside, no carriage return at its end. */
  predicate Plain(l: seq<Byte>) { NL !in l && (l == [] || l[|l| - 1] != CR) }

  /** Reading back written lines gives the lines, whichever terminators were used, and
      a last line without one if it is not empty. */
  lemma {:induction false} LinesOfWritten(ls: seq<(seq<Byte>, bool)>, last: seq<Byte>)
    requires Plain(last) && forall k | 0 <= k < |ls| :: Plain(ls[k].0)
    ensures Lines(Written(ls) + last) == Texts(ls) + (if last == [] then [] else [last])
    decreases ls
  {
    if ls == [] {
      LastLine(last);
    } else {
      var l, crlf := ls[0].0, ls[0].1;
      var raw := if crlf then l + [CR] else l;
      hide Written, Lines, Texts, DropCR;
      WrittenStep(ls, last);
      Undropped(l, crlf);
      FirstLine(raw, Written(ls[1..]) + last);
      LinesOfWritten(ls[1..], last);
      var end := if last == [] then [] else [last];
      assert ([l] + Texts(ls[1..])) + end == [l] + (Texts(ls[1..]) + end);
    }
  }

  lemma LastLine(last: seq<Byte>)
    requires Plain(last)
    ensures Lines(Written([]) + last) == Texts([]) + (if last == [] then [] else [last])
  {
    assert Written([]) + last == last;
    IndexByteSpec(last, NL);
  }

  lemma Undropped(l: seq<Byte>, crlf: bool)
    requires Plain(l)
    ensures var raw := if crlf then l + [CR] else l; NL !in raw && DropCR(raw) == l
  {
  }

  lemma WrittenFirst(ls: seq<(seq<Byte>, bool)>)
    requires ls != []
    ensures Written(ls) == (if ls[0].1 then ls[0].0 + [CR] else ls[0].0) + [NL] + Written(ls[1..])
  {
    var l := ls[0].0;
    assert l + [CR, NL] == (l + [CR]) + [NL];
  }

  lemma WrittenStep(ls: seq<(seq<Byte>, bool)>, last: seq<Byte>)
    requires ls != []
    ensures var raw := if ls[0].1 then ls[0].0 + [CR] else ls[0].0;
      Written(ls) + last == raw + [NL] + (Written(ls[1..]) + last)
    ensures Texts(ls) == [ls[0].0] + Texts(ls[1..])
  {
    WrittenFirst(ls);
    hide Written;
    var l, rest := ls[0].0, Written(ls[1..]);
    var raw := if ls[0].1 then l + [CR] else l;
    assert (raw + [NL] + rest) + last == raw + [NL] + (rest + last);
  }

  lemma FirstLine(raw: seq<Byte>, tail: seq<Byte>)
    requires NL !in raw
    ensures Lines(raw + [NL] + tail) == [DropCR(raw)] + Lines(tail)
  {
    var s := raw + [NL] + tail;
    assert s[..|raw|] == raw && s[|raw| + 1..] == tail;
    IndexByteUnique(s, NL, |raw|);
  }
}
