/** The synchronous in-memory pipe of package io as a transition system: any number
    of goroutines run Read, Write, CloseRead and CloseWrite, and every channel
    operation, lock operation and error access is one step. */
module Pipe {

  import opened Common

  datatype Error = ErrClosedPipe | EOF | Other(code: nat)

  // ----- goroutines -----

  /** Where a goroutine stands inside one call, with the call's local variables. */
  datatype Thread =
    | Idle
    // Read(b), cap being len(b)
    | ReadPoll(cap: nat)                           // line 64, the first select
    | ReadWait(cap: nat)                           // line 70, the second select
    | ReadGot(cap: nat, bw: seq<Byte>)             // line 72, bw received
    | ReadReply(cap: nat, data: seq<Byte>)         // line 73, sending the count on rdCh
    | ReadLoadR(cap: nat)                          // line 81
    | ReadLoadW(cap: nat, rerr: Option<Error>)     // line 82
    | ReadDone(cap: nat, data: seq<Byte>, rr: Option<Error>)
    // Write(b): orig is b at the call, b what is left of it
    | WritePoll(orig: seq<Byte>)                   // line 98
    | WriteLock(orig: seq<Byte>)                   // line 102
    | WriteLoop(orig: seq<Byte>, b: seq<Byte>, n: nat, once: bool)  // line 106
    | WriteAwait(orig: seq<Byte>, b: seq<Byte>, n: nat)             // line 115, waiting on rdCh
    | WriteLoadW(orig: seq<Byte>, n: nat, locked: bool)             // line 126
    | WriteLoadR(orig: seq<Byte>, n: nat, locked: bool, werr: Option<Error>)  // line 127
    | WriteDone(orig: seq<Byte>, n: nat, wr: Option<Error>, locked: bool)
    // CloseRead (side = true) and CloseWrite (side = false)
    | CloseStore(side: bool, err: Error)           // lines 92 and 137
    | CloseOnce(side: bool)                        // lines 93 and 139

  /** What is remembered of a Write that got the lock: its argument, the count
      acknowledged so far, the capacities of the Reads that answered it, and what it
      returned. */
  datatype Record = Record(b: seq<Byte>, n: nat, caps: seq<nat>, ret: Option<(nat, Option<Error>)>)

  /** The fields of the pipe, then history: the record of Writes in lock order, the
      slices readers received in hand-off order, and the reader a transfer is with. */
  datatype State = State(
    threads: seq<Thread>,
    holder: Option<nat>,      // wrMu
    onceDone: bool,           // once
    closes: nat,              // how often close(done) ran
    rerr: Option<Error>,
    werr: Option<Error>,
    log: seq<Record>,
    handed: seq<seq<Byte>>,
    partner: Option<nat>)

  datatype Step =
    | StartRead(i: nat, cap: nat)
    | StartWrite(i: nat, b: seq<Byte>)
    | StartClose(i: nat, side: bool, err: Option<Error>)
    | DoReadPoll(i: nat)
    | DoTransfer(w: nat, r: nat)
    | DoCopy(i: nat)
    | DoAck(w: nat, r: nat)
    | DoReadSeesDone(i: nat)
    | DoReadLoadR(i: nat)
    | DoReadLoadW(i: nat)
    | DoWritePoll(i: nat)
    | DoLock(i: nat)
    | DoWriteSeesDone(i: nat)
    | DoWriteReturn(i: nat)
    | DoWriteLoadW(i: nat)
    | DoWriteLoadR(i: nat)
    | DoStore(i: nat)
    | DoOnce(i: nat)

  predicate IsDone(s: State) { s.closes > 0 }

  function Min(a: nat, b: nat): nat { if a < b then a else b }

  predicate At(s: State, i: nat) { i < |s.threads| }

  predicate Resting(t: Thread) { t.Idle? || t.ReadDone? || t.WriteDone? }

  /** The loop condition of line 106. */
  predicate Looping(t: Thread) { t.WriteLoop? && (t.once || |t.b| > 0) }

  predicate Enabled(s: State, a: Step) {
    match a
    case StartRead(i, _) => At(s, i) && Resting(s.threads[i])
    case StartWrite(i, _) => At(s, i) && Resting(s.threads[i])
    case StartClose(i, _, _) => At(s, i) && Resting(s.threads[i])
    case DoReadPoll(i) => At(s, i) && s.threads[i].ReadPoll?
    case DoTransfer(w, r) => At(s, w) && At(s, r) && Looping(s.threads[w]) && s.threads[r].ReadWait?
    case DoCopy(i) => At(s, i) && s.threads[i].ReadGot?
    case DoAck(w, r) => At(s, w) && At(s, r) && s.threads[w].WriteAwait? && s.threads[r].ReadReply?
    case DoReadSeesDone(i) => At(s, i) && s.threads[i].ReadWait? && IsDone(s)
    case DoReadLoadR(i) => At(s, i) && s.threads[i].ReadLoadR?
    case DoReadLoadW(i) => At(s, i) && s.threads[i].ReadLoadW?
    case DoWritePoll(i) => At(s, i) && s.threads[i].WritePoll?
    case DoLock(i) => At(s, i) && s.threads[i].WriteLock? && s.holder.None?
    case DoWriteSeesDone(i) => At(s, i) && Looping(s.threads[i]) && IsDone(s)
    case DoWriteReturn(i) => At(s, i) && s.threads[i].WriteLoop? && !Looping(s.threads[i])
    case DoWriteLoadW(i) => At(s, i) && s.threads[i].WriteLoadW?
    case DoWriteLoadR(i) => At(s, i) && s.threads[i].WriteLoadR?
    case DoStore(i) => At(s, i) && s.threads[i].CloseStore?
    case DoOnce(i) => At(s, i) && s.threads[i].CloseOnce?
  }

  function Put(s: State, i: nat, t: Thread): State
    requires At(s, i)
  {
    s.(threads := s.threads[i := t])
  }

  /** The result of readCloseError (line 80) and writeCloseError (line 125): the error
      of the other side if this side has none. */
  function CloseError(own: Option<Error>, other: Option<Error>): Error {
    if own.None? && other.Some? then other.value else ErrClosedPipe
  }

  /** onceError.Store (line 28). */
  function StoreOnce(stored: Option<Error>, err: Error): Option<Error> {
    if stored.Some? then stored else Some(err)
  }

  /** Changes the last record of the log. */
  function Amend(log: seq<Record>, r: Record): seq<Record>
    requires log != []
  {
    log[..|log| - 1] + [r]
  }

  function Last(log: seq<Record>): Record
    requires log != []
  {
    log[|log| - 1]
  }

  /** Leaving Write: the deferred unlock if the lock is held, and the return value. */
  function Return(s: State, i: nat, locked: bool, orig: seq<Byte>, n: nat, err: Option<Error>): State
    requires At(s, i)
  {
    var s1 := Put(s, i, WriteDone(orig, n, err, locked));
    if locked then
      s1.(holder := None,
          log := if s.log == [] then [] else Amend(s.log, Last(s.log).(ret := Some((n, err)))))
    else s1
  }

  function Apply(s: State, a: Step): State
    requires Enabled(s, a)
  {
    match a
    case StartRead(i, cap) => Put(s, i, ReadPoll(cap))
    case StartWrite(i, b) => Put(s, i, WritePoll(b))
    case StartClose(i, side, err) =>
      Put(s, i, CloseStore(side, if err.Some? then err.value else if side then ErrClosedPipe else EOF))
    case DoReadPoll(i) =>
      Put(s, i, if IsDone(s) then ReadLoadR(s.threads[i].cap) else ReadWait(s.threads[i].cap))
    case DoTransfer(w, r) =>
      var t := s.threads[w];
      Put(Put(s, w, WriteAwait(t.orig, t.b, t.n)), r, ReadGot(s.threads[r].cap, t.b)).(partner := Some(r))
    case DoCopy(i) =>
      var t := s.threads[i];
      var data := t.bw[..Min(t.cap, |t.bw|)];
      Put(s, i, ReadReply(t.cap, data)).(handed := s.handed + [data])
    case DoAck(w, r) =>
      var t, cap, data := s.threads[w], s.threads[r].cap, s.threads[r].data;
      var nw := |data|;
      var rest := if nw <= |t.b| then t.b[nw..] else [];
      Put(Put(s, w, WriteLoop(t.orig, rest, t.n + nw, false)), r, ReadDone(cap, data, None))
        .(partner := None,
          log := if s.log == [] then [] else Amend(s.log, Last(s.log).(n := t.n + nw, caps := Last(s.log).caps + [cap])))
    case DoReadSeesDone(i) => Put(s, i, ReadLoadR(s.threads[i].cap))
    case DoReadLoadR(i) => Put(s, i, ReadLoadW(s.threads[i].cap, s.rerr))
    case DoReadLoadW(i) => Put(s, i, ReadDone(s.threads[i].cap, [], Some(CloseError(s.threads[i].rerr, s.werr))))
    case DoWritePoll(i) =>
      var t := s.threads[i];
      Put(s, i, if IsDone(s) then WriteLoadW(t.orig, 0, false) else WriteLock(t.orig))
    case DoLock(i) =>
      var t := s.threads[i];
      Put(s, i, WriteLoop(t.orig, t.orig, 0, true)).(holder := Some(i), log := s.log + [Record(t.orig, 0, [], None)])
    case DoWriteSeesDone(i) => Put(s, i, WriteLoadW(s.threads[i].orig, s.threads[i].n, true))
    case DoWriteReturn(i) => Return(s, i, true, s.threads[i].orig, s.threads[i].n, None)
    case DoWriteLoadW(i) =>
      var t := s.threads[i];
      Put(s, i, WriteLoadR(t.orig, t.n, t.locked, s.werr))
    case DoWriteLoadR(i) =>
      var t := s.threads[i];
      Return(s, i, t.locked, t.orig, t.n, Some(CloseError(t.werr, s.rerr)))
    case DoStore(i) =>
      var t := s.threads[i];
      var s1 := Put(s, i, CloseOnce(t.side));
      if t.side then s1.(rerr := StoreOnce(s.rerr, t.err)) else s1.(werr := StoreOnce(s.werr, t.err))
    case DoOnce(i) =>
      var s1 := Put(s, i, Idle);
      if s.onceDone then s1 else s1.(onceDone := true, closes := s.closes + 1)
  }

  function Init(count: nat): State {
    State(seq(count, _ => Idle), None, false, 0, None, None, [], [], None)
  }

  // ----- runs -----

  predicate Runs(count: nat, steps: seq<Step>)
    decreases |steps|, 0
  {
    if steps == [] then true
    else Runs(count, steps[..|steps| - 1]) && Enabled(Run(count, steps[..|steps| - 1]), steps[|steps| - 1])
  }

  /** The state after the given steps. */
  function Run(count: nat, steps: seq<Step>): State
    requires Runs(count, steps)
    decreases |steps|, 1
  {
    if steps == [] then Init(count)
    else Apply(Run(count, steps[..|steps| - 1]), steps[|steps| - 1])
  }

  // ----- what every step keeps -----

  /** Inside the critical section of wrMu. */
  predicate Critical(t: Thread) {
    t.WriteLoop? || t.WriteAwait? || (t.WriteLoadW? && t.locked) || (t.WriteLoadR? && t.locked)
  }

  predicate InFlight(t: Thread) { t.ReadGot? || t.ReadReply? }

  /** The lock is held by exactly the Write that is inside. */
  ghost predicate LockInv(s: State) {
    && (forall i | 0 <= i < |s.threads| && Critical(s.threads[i]) :: s.holder == Some(i))
    && (s.holder.Some? ==> At(s, s.holder.value) && Critical(s.threads[s.holder.value]))
  }

  /** At most one reader has a slice, and it is that of the Write waiting for a count. */
  ghost predicate TransferInv(s: State) {
    && (forall i | 0 <= i < |s.threads| && InFlight(s.threads[i]) :: s.partner == Some(i))
    && (s.partner.Some? <==> s.holder.Some? && At(s, s.holder.value) && s.threads[s.holder.value].WriteAwait?)
    && (s.partner.Some? ==>
      && At(s, s.partner.value) && InFlight(s.threads[s.partner.value])
      && var t := s.threads[s.partner.value]; var b := s.threads[s.holder.value].b;
        && (t.ReadGot? ==> t.bw == b)
        && (t.ReadReply? ==> IsFront(t.data, b, t.cap)))
  }

  /** As much of b as cap bytes can hold. */
  predicate IsFront(data: seq<Byte>, b: seq<Byte>, cap: nat) {
    data <= b && |data| <= cap && (|data| == cap || data == b)
  }

  function Sum(caps: seq<nat>): nat { if caps == [] then 0 else Sum(caps[..|caps| - 1]) + caps[|caps| - 1] }

  /** The Reads that answered have room for all of the Write, and there was one. */
  predicate Enough(r: Record) { r.caps != [] && Sum(r.caps) >= |r.b| }

  /** The open record describes the Write inside. */
  ghost predicate LogInv(s: State) {
    && (s.holder.Some? ==>
      && s.log != [] && At(s, s.holder.value) && Critical(s.threads[s.holder.value])
      && var t, r := s.threads[s.holder.value], Last(s.log);
        && r.b == t.orig && r.n == t.n && r.ret == None && r.n == Min(|r.b|, Sum(r.caps))
        && (t.WriteLoop? || t.WriteAwait? ==> t.b == t.orig[t.n..])
        && (t.WriteLoop? ==> (t.once <==> r.caps == []))
        && (!t.WriteLoop? ==> !Enough(r)))
    && (forall k | 0 <= k < |s.log| && !(s.holder.Some? && k == |s.log| - 1) :: Closed(s.log[k]))
  }

  /** A finished Write: it returned the acknowledged count, which is all of its bytes or
      what the Reads that answered it had room for, and no error exactly if that was
      enough. */
  ghost predicate Closed(r: Record) {
    && r.n == Min(|r.b|, Sum(r.caps))
    && r.ret.Some? && r.ret.value.0 == r.n && (r.ret.value.1.None? <==> Enough(r))
  }

  /** The first n bytes of every Write, n as acknowledged, in lock order. */
  function Acknowledged(log: seq<Record>): seq<Byte> {
    if log == [] then []
    else Acknowledged(log[..|log| - 1]) + Last(log).b[..Min(Last(log).n, |Last(log).b|)]
  }

  /** Bytes copied to a reader whose count is still on its way. */
  function Unconfirmed(s: State): seq<Byte> {
    if s.partner.Some? && At(s, s.partner.value) && s.threads[s.partner.value].ReadReply?
    then s.threads[s.partner.value].data else []
  }

  ghost predicate DeliveryInv(s: State) {
    Flatten(s.handed) == Acknowledged(s.log) + Unconfirmed(s)
  }

  /** done is closed at most once, and only after an error was stored. */
  ghost predicate CloseInv(s: State) {
    && s.closes == (if s.onceDone then 1 else 0)
    && (s.onceDone ==> s.rerr.Some? || s.werr.Some?)
    && forall i | 0 <= i < |s.threads| :: CloseThreadInv(s, s.threads[i])
  }

  ghost predicate CloseThreadInv(s: State, t: Thread) {
    && (t.CloseOnce? ==> if t.side then s.rerr.Some? else s.werr.Some?)
    && (t.ReadLoadR? || t.WriteLoadW? ==> IsDone(s))
    && (t.ReadLoadW? ==> LoadedOwn(s, t.rerr, s.rerr, s.werr))
    && (t.WriteLoadR? ==> LoadedOwn(s, t.werr, s.werr, s.rerr))
    && (t.ReadDone? && t.rr.Some? ==> Explained(s, t.rr.value, s.rerr, s.werr))
    && (t.WriteDone? && t.wr.Some? ==> Explained(s, t.wr.value, s.werr, s.rerr))
  }

  /** The error of its own side that a call has loaded after seeing done. */
  ghost predicate LoadedOwn(s: State, loaded: Option<Error>, own: Option<Error>, other: Option<Error>) {
    && IsDone(s)
    && (loaded.Some? ==> own == loaded)
    && (loaded.None? ==> other.Some?)
  }

  /** A failed call after Close: it has the other side's error, or its own side was
      closed and the error is ErrClosedPipe. */
  ghost predicate Explained(s: State, e: Error, own: Option<Error>, other: Option<Error>) {
    IsDone(s) && (other == Some(e) || (own.Some? && e == ErrClosedPipe))
  }

  ghost predicate Inv(s: State) {
    LockInv(s) && TransferInv(s) && LogInv(s) && DeliveryInv(s) && CloseInv(s)
  }

  lemma InitInv(count: nat)
    ensures Inv(Init(count))
  {
  }

  lemma AcknowledgedSnoc(log: seq<Record>, r: Record)
    ensures Acknowledged(log + [r]) == Acknowledged(log) + r.b[..Min(r.n, |r.b|)]
  {
    assert (log + [r])[..|log|] == log;
  }

  lemma AcknowledgedAmend(log: seq<Record>, r: Record)
    requires log != []
    ensures Acknowledged(Amend(log, r)) == Acknowledged(log[..|log| - 1]) + r.b[..Min(r.n, |r.b|)]
  {
    AcknowledgedSnoc(log[..|log| - 1], r);
  }

  // ----- steps of one goroutine outside the critical section -----

  /** Everything the first four invariants read, apart from the goroutines. */
  predicate SameCore(s: State, s': State) {
    s'.holder == s.holder && s'.log == s.log && s'.handed == s.handed && s'.partner == s.partner
  }

  /** A goroutine that is neither inside Write's lock nor holding a slice. */
  predicate Outside(t: Thread) { !Critical(t) && !InFlight(t) }

  lemma OutsideStep(s: State, s': State, i: nat, t: Thread)
    requires Inv(s) && At(s, i) && SameCore(s, s')
    requires s'.threads == s.threads[i := t] && Outside(s.threads[i]) && Outside(t)
    ensures LockInv(s') && TransferInv(s') && LogInv(s') && DeliveryInv(s')
  {
    assert s.holder.Some? ==> s.holder.value != i;
    assert s.partner.Some? ==> s.partner.value != i;
  }

  // ----- steps inside the critical section -----

  lemma LockStep(s: State, i: nat)
    requires Inv(s) && Enabled(s, DoLock(i))
    ensures var s' := Apply(s, DoLock(i)); LockInv(s') && TransferInv(s') && LogInv(s') && DeliveryInv(s')
  {
    hide CloseInv, Closed;
    AcknowledgedSnoc(s.log, Record(s.threads[i].orig, 0, [], None));
  }

  lemma TransferStep(s: State, w: nat, r: nat)
    requires Inv(s) && Enabled(s, DoTransfer(w, r))
    ensures var s' := Apply(s, DoTransfer(w, r)); LockInv(s') && TransferInv(s') && LogInv(s') && DeliveryInv(s')
  {
    hide CloseInv, Closed;
    assert w != r && s.holder == Some(w);
  }

  lemma CopyStep(s: State, i: nat)
    requires Inv(s) && Enabled(s, DoCopy(i))
    ensures var s' := Apply(s, DoCopy(i)); LockInv(s') && TransferInv(s') && LogInv(s') && DeliveryInv(s')
  {
    hide CloseInv, Closed;
    var t := s.threads[i];
    FlattenSnoc(s.handed, t.bw[..Min(t.cap, |t.bw|)]);
    assert s.partner == Some(i) && s.holder.value != i;
  }

  /** The only pair that can meet on rdCh. */
  lemma AckPair(s: State, w: nat, r: nat)
    requires Inv(s) && Enabled(s, DoAck(w, r))
    ensures s.holder == Some(w) && s.partner == Some(r) && w != r
    ensures IsFront(s.threads[r].data, s.threads[w].b, s.threads[r].cap)
    ensures s.log != [] && Last(s.log) == Record(s.threads[w].orig, s.threads[w].n, Last(s.log).caps, None)
    ensures s.threads[w].n == Min(|s.threads[w].orig|, Sum(Last(s.log).caps)) && !Enough(Last(s.log))
    ensures s.threads[w].n <= |s.threads[w].orig| && s.threads[w].b == s.threads[w].orig[s.threads[w].n..]
    ensures Flatten(s.handed) == Acknowledged(s.log) + s.threads[r].data
  {
    hide CloseInv, Closed;
  }

  /** The acknowledged bytes grow by exactly the confirmed slice. */
  lemma AckDelivery(log: seq<Record>, rec: Record, data: seq<Byte>, caps: seq<nat>)
    requires log != [] && Last(log) == rec && rec.n <= |rec.b| && data <= rec.b[rec.n..]
    ensures Acknowledged(Amend(log, rec.(n := rec.n + |data|, caps := caps))) == Acknowledged(log) + data
  {
    hide Acknowledged;
    AcknowledgedAmend(log, rec);
    AcknowledgedAmend(log, rec.(n := rec.n + |data|, caps := caps));
    assert Amend(log, rec) == log;
    assert rec.b[..rec.n + |data|] == rec.b[..rec.n] + data;
  }

  lemma AckStep(s: State, w: nat, r: nat)
    requires Inv(s) && Enabled(s, DoAck(w, r))
    ensures var s' := Apply(s, DoAck(w, r)); LockInv(s') && TransferInv(s') && LogInv(s') && DeliveryInv(s')
  {
    hide Inv, Apply, LockInv, TransferInv, LogInv, DeliveryInv;
    var s' := Apply(s, DoAck(w, r));
    AckLock(s, w, r, s');
    AckTransfer(s, w, r, s');
    AckLog(s, w, r, s');
    AckDelivered(s, w, r, s');
  }

  lemma AckDelivered(s: State, w: nat, r: nat, s': State)
    requires Inv(s) && Enabled(s, DoAck(w, r)) && s' == Apply(s, DoAck(w, r))
    ensures DeliveryInv(s')
  {
    hide CloseInv, Closed, Flatten, Acknowledged, LockInv, TransferInv, LogInv;
    AckPair(s, w, r);
    AckDelivery(s.log, Last(s.log), s.threads[r].data, Last(s.log).caps + [s.threads[r].cap]);
    assert s'.partner == None && s'.handed == s.handed;
  }

  lemma AckLock(s: State, w: nat, r: nat, s': State)
    requires Inv(s) && Enabled(s, DoAck(w, r)) && s' == Apply(s, DoAck(w, r))
    ensures LockInv(s') && s'.partner == None
  {
    hide CloseInv, Closed, Flatten, Acknowledged, LogInv;
    AckPair(s, w, r);
  }

  lemma AckTransfer(s: State, w: nat, r: nat, s': State)
    requires Inv(s) && Enabled(s, DoAck(w, r)) && s' == Apply(s, DoAck(w, r))
    ensures TransferInv(s')
  {
    hide CloseInv, Closed, Flatten, Acknowledged, LogInv;
    AckPair(s, w, r);
  }

  /** The state after a count was received. */
  lemma AckAfter(s: State, w: nat, r: nat, s': State)
    requires Inv(s) && Enabled(s, DoAck(w, r)) && s' == Apply(s, DoAck(w, r))
    ensures var t, cap, data := s.threads[w], s.threads[r].cap, s.threads[r].data;
      && s.log != [] && |s'.threads| == |s.threads| && s'.holder == s.holder == Some(w)
      && s'.log == Amend(s.log, Record(t.orig, t.n + |data|, Last(s.log).caps + [cap], None)) && t.n + |data| <= |t.orig|
      && s'.threads[w] == WriteLoop(t.orig, t.orig[t.n + |data|..], t.n + |data|, false)
  {
    hide CloseInv, DeliveryInv, TransferInv, LockInv, LogInv, Sum, IsFront, Min, Enough, Flatten, Acknowledged;
    AckPair(s, w, r);
    AckRest(s.threads[w].orig, s.threads[w].n, s.threads[r].data, s.threads[r].cap);
  }

  lemma AckRest(orig: seq<Byte>, n: nat, data: seq<Byte>, cap: nat)
    requires n <= |orig| && IsFront(data, orig[n..], cap)
    ensures n + |data| <= |orig| && |data| <= |orig[n..]| && orig[n..][|data|..] == orig[n + |data|..]
  {
  }

  /** Every Read that answers adds what it has room for. */
  lemma AckCount(orig: seq<Byte>, n: nat, caps: seq<nat>, data: seq<Byte>, cap: nat)
    requires n == Min(|orig|, Sum(caps)) && IsFront(data, orig[n..], cap)
    ensures n + |data| == Min(|orig|, Sum(caps + [cap]))
  {
    assert (caps + [cap])[..|caps|] == caps;
  }

  lemma AckLog(s: State, w: nat, r: nat, s': State)
    requires Inv(s) && Enabled(s, DoAck(w, r)) && s' == Apply(s, DoAck(w, r))
    ensures LogInv(s')
  {
    hide CloseInv, DeliveryInv, TransferInv, LockInv, Closed, Apply, Sum, IsFront, Min;
    AckPair(s, w, r);
    AckAfter(s, w, r, s');
    AckCount(s.threads[w].orig, s.threads[w].n, Last(s.log).caps, s.threads[r].data, s.threads[r].cap);
    forall k | 0 <= k < |s'.log| - 1
      ensures Closed(s'.log[k])
    {
      assert s'.log[k] == s.log[k];
    }
  }

  /** Leaving the loop because done is closed. */
  lemma SeesDoneStep(s: State, i: nat)
    requires Inv(s) && Enabled(s, DoWriteSeesDone(i))
    ensures var s' := Apply(s, DoWriteSeesDone(i)); LockInv(s') && TransferInv(s') && LogInv(s') && DeliveryInv(s')
  {
    hide CloseInv, Closed;
    assert s.holder == Some(i);
  }

  lemma LoadStep(s: State, i: nat)
    requires Inv(s) && Enabled(s, DoWriteLoadW(i)) && s.threads[i].locked
    ensures var s' := Apply(s, DoWriteLoadW(i)); LockInv(s') && TransferInv(s') && LogInv(s') && DeliveryInv(s')
  {
    hide CloseInv, Closed;
    assert s.holder == Some(i);
  }

  /** Returning from Write with the lock held. */
  lemma ReturnStep(s: State, i: nat, err: Option<Error>)
    requires Inv(s) && At(s, i) && s.holder == Some(i) && !s.threads[i].WriteAwait?
    requires err.Some? ==> s.threads[i].WriteLoadR?
    requires err.None? ==> s.threads[i].WriteLoop? && !Looping(s.threads[i])
    ensures var t := s.threads[i]; var s' := Return(s, i, true, t.orig, t.n, err);
      LockInv(s') && TransferInv(s') && LogInv(s') && DeliveryInv(s')
  {
    hide CloseInv, Flatten, Acknowledged;
    var t := s.threads[i];
    var rec := Last(s.log);
    AcknowledgedAmend(s.log, rec);
    AcknowledgedAmend(s.log, rec.(ret := Some((t.n, err))));
    assert Amend(s.log, rec) == s.log;
  }

  // ----- closing -----

  /** Errors once stored stay, and so does done. */
  predicate Later(s: State, s': State) {
    && (s.rerr.Some? ==> s'.rerr == s.rerr)
    && (s.werr.Some? ==> s'.werr == s.werr)
    && s.closes <= s'.closes
  }

  lemma StepLater(s: State, a: Step)
    requires Enabled(s, a)
    ensures Later(s, Apply(s, a))
    ensures |Apply(s, a).threads| == |s.threads|
  {
  }

  lemma CloseThreadLater(s: State, s': State, t: Thread)
    requires CloseThreadInv(s, t) && Later(s, s')
    ensures CloseThreadInv(s', t)
  {
  }

  /** The goroutine a step moves, and for a rendezvous the other one. */
  function Mover(a: Step): nat {
    match a
    case DoTransfer(w, r) => w
    case DoAck(w, r) => w
    case _ => a.i
  }

  function Other(a: Step): nat {
    match a
    case DoTransfer(w, r) => r
    case DoAck(w, r) => r
    case _ => a.i
  }

  lemma OnlyMoved(s: State, a: Step, j: nat)
    requires Enabled(s, a) && j < |s.threads| && j != Mover(a) && j != Other(a)
    ensures j < |Apply(s, a).threads| && Apply(s, a).threads[j] == s.threads[j]
  {
  }

  lemma MovedClose(s: State, a: Step)
    requires CloseInv(s) && Enabled(s, a)
    ensures var s' := Apply(s, a);
      && Mover(a) < |s'.threads| && Other(a) < |s'.threads|
      && CloseThreadInv(s', s'.threads[Mover(a)]) && CloseThreadInv(s', s'.threads[Other(a)])
      && s'.closes == (if s'.onceDone then 1 else 0)
      && (s'.onceDone ==> s'.rerr.Some? || s'.werr.Some?)
  {
    assert CloseThreadInv(s, s.threads[Mover(a)]);
    assert CloseThreadInv(s, s.threads[Other(a)]);
  }

  lemma CloseStep(s: State, a: Step)
    requires CloseInv(s) && Enabled(s, a)
    ensures CloseInv(Apply(s, a))
  {
    hide Apply, Enabled, CloseThreadInv;
    var s' := Apply(s, a);
    StepLater(s, a);
    MovedClose(s, a);
    forall j | 0 <= j < |s'.threads|
      ensures CloseThreadInv(s', s'.threads[j])
    {
      if j != Mover(a) && j != Other(a) {
        OnlyMoved(s, a, j);
        CloseThreadLater(s, s', s.threads[j]);
      }
    }
  }

  // ----- every step, every run -----

  /** Steps that leave the lock and the transfer alone. */
  predicate IsOutside(s: State, a: Step)
    requires Enabled(s, a)
  {
    match a
    case DoTransfer(_, _) => false
    case DoCopy(_) => false
    case DoAck(_, _) => false
    case DoLock(_) => false
    case DoWriteSeesDone(_) => false
    case DoWriteReturn(_) => false
    case DoWriteLoadW(i) => !s.threads[i].locked
    case DoWriteLoadR(i) => !s.threads[i].locked
    case _ => true
  }

  lemma OutsideShape(s: State, a: Step)
    requires Enabled(s, a) && IsOutside(s, a)
    ensures var i := Mover(a); var s' := Apply(s, a);
      && At(s, i) && At(s', i) && SameCore(s, s') && Outside(s.threads[i]) && Outside(s'.threads[i])
      && s'.threads == s.threads[i := s'.threads[i]]
  {
  }

  lemma HolderOf(s: State, i: nat)
    requires LockInv(s) && At(s, i) && Critical(s.threads[i])
    ensures s.holder == Some(i)
  {
  }

  lemma CoreStep(s: State, a: Step)
    requires Inv(s) && Enabled(s, a)
    ensures var s' := Apply(s, a); LockInv(s') && TransferInv(s') && LogInv(s') && DeliveryInv(s')
  {
    hide TransferInv, LogInv, DeliveryInv, CloseInv, LockInv;
    if IsOutside(s, a) {
      OutsideShape(s, a);
      OutsideStep(s, Apply(s, a), Mover(a), Apply(s, a).threads[Mover(a)]);
    } else {
      match a
      case DoTransfer(w, r) => TransferStep(s, w, r);
      case DoCopy(i) => CopyStep(s, i);
      case DoAck(w, r) => AckStep(s, w, r);
      case DoLock(i) => LockStep(s, i);
      case DoWriteSeesDone(i) => SeesDoneStep(s, i);
      case DoWriteReturn(i) => HolderOf(s, i); ReturnStep(s, i, None);
      case DoWriteLoadW(i) => LoadStep(s, i);
      case DoWriteLoadR(i) => HolderOf(s, i); ReturnStep(s, i, Some(CloseError(s.threads[i].werr, s.rerr)));
    }
  }

  lemma StepInv(s: State, a: Step)
    requires Inv(s) && Enabled(s, a)
    ensures Inv(Apply(s, a))
  {
    hide LockInv, TransferInv, LogInv, DeliveryInv, CloseInv, Apply, Enabled;
    CoreStep(s, a);
    CloseStep(s, a);
  }

  lemma {:induction false} RunInv(count: nat, steps: seq<Step>)
    requires Runs(count, steps)
    ensures Inv(Run(count, steps))
    decreases |steps|
  {
    hide Inv, Apply, Enabled, Init;
    if steps == [] {
      InitInv(count);
    } else {
      RunInv(count, steps[..|steps| - 1]);
      StepInv(Run(count, steps[..|steps| - 1]), steps[|steps| - 1]);
    }
  }

  // ----- the promises -----

  /** Whenever no transfer is in flight, the bytes readers got, in hand-off order, are
      the first n bytes of every Write in lock order, n as acknowledged so far; and
      every finished Write returned that n, short of its argument only with an
      error. */
  lemma Delivered(count: nat, steps: seq<Step>)
    requires Runs(count, steps)
    ensures var s := Run(count, steps);
      && (s.partner.None? ==> Flatten(s.handed) == Acknowledged(s.log))
      && (s.holder.None? ==> forall k | 0 <= k < |s.log| :: Closed(s.log[k]))
  {
    hide Apply, Enabled, Init, CloseInv, Closed, Flatten, Acknowledged;
    RunInv(count, steps);
  }

  /** A count received on rdCh answers the slice the same Write has just sent: the
      reader that can send it is the only one holding a slice, and what it counts is
      the front of that slice. */
  lemma CountAnswersSlice(count: nat, steps: seq<Step>, w: nat, r: nat)
    requires Runs(count, steps) && Enabled(Run(count, steps), DoAck(w, r))
    ensures var s := Run(count, steps);
      && IsFront(s.threads[r].data, s.threads[w].b, s.threads[r].cap)
      && (forall r' | 0 <= r' < |s.threads| && InFlight(s.threads[r']) :: r' == r)
      && (forall w' | 0 <= w' < |s.threads| && s.threads[w'].WriteAwait? :: w' == w)
  {
    hide Apply, Init, CloseInv, LogInv, DeliveryInv;
    RunInv(count, steps);
  }

  /** A Read that gets a slice fills its buffer or takes all of it: nothing is left of the
      Write, or no room in the Read. */
  lemma ReadFills(count: nat, steps: seq<Step>, w: nat, r: nat)
    requires Runs(count, steps) && Enabled(Run(count, steps), DoAck(w, r))
    ensures var s := Run(count, steps); var s' := Apply(s, DoAck(w, r));
      var cap, data := s.threads[r].cap, s.threads[r].data;
      && s'.threads[r] == ReadDone(cap, data, None) && s'.threads[w].WriteLoop?
      && data + s'.threads[w].b == s.threads[w].b && |data| <= cap && (|data| == cap || s'.threads[w].b == [])
  {
    hide Init, CloseInv, LogInv, DeliveryInv;
    RunInv(count, steps);
  }

  /** What every finished Write returned: as much as the Reads that answered it had room
      for, and no error exactly if that was all, at least one Read having answered. */
  lemma WriteReturns(count: nat, steps: seq<Step>, k: nat)
    requires Runs(count, steps) && k < |Run(count, steps).log| && Run(count, steps).log[k].ret.Some?
    ensures var r := Run(count, steps).log[k];
      && r.ret.value.0 == (if Sum(r.caps) < |r.b| then Sum(r.caps) else |r.b|)
      && (r.ret.value.1.None? <==> r.caps != [] && Sum(r.caps) >= |r.b|)
  {
    hide Apply, Enabled, Init, CloseInv, LockInv, TransferInv, DeliveryInv, Sum;
    RunInv(count, steps);
  }

  /** Once the Reads that answered have room for all of it, a Write no longer waits for
      anything, closed or not: its next step returns all of its bytes and no error. */
  lemma WriteCompletes(count: nat, steps: seq<Step>, w: nat)
    requires Runs(count, steps)
    requires var s := Run(count, steps); s.holder == Some(w) && s.log != [] && Enough(Last(s.log))
    ensures var s := Run(count, steps); var a := DoWriteReturn(w);
      && Enabled(s, a) && !Enabled(s, DoWriteSeesDone(w)) && (forall r :: !Enabled(s, DoTransfer(w, r)))
      && Apply(s, a).threads[w] == WriteDone(Last(s.log).b, |Last(s.log).b|, None, true)
  {
    hide Init, CloseInv, LockInv, TransferInv, DeliveryInv, Sum;
    RunInv(count, steps);
  }

  // ----- calls and what they return -----

  /** Some record of the log is that of this finished Write. */
  ghost predicate Logged(log: seq<Record>, t: Thread)
    requires t.WriteDone?
  {
    exists k :: 0 <= k < |log| && log[k].b == t.orig && log[k].ret == Some((t.n, t.wr))
  }

  /** A Write returned what its record says, or failed without having got the lock. */
  ghost predicate ResultOk(s: State, t: Thread) {
    && (t.WriteDone? ==> if t.locked then Logged(s.log, t) else t.n == 0 && t.wr.Some?)
    && ((t.WriteLoadW? || t.WriteLoadR?) && !t.locked ==> t.n == 0)
  }

  /** Records of finished Writes stay. */
  ghost predicate LogLater(log: seq<Record>, log': seq<Record>) {
    |log| <= |log'| && forall k | 0 <= k < |log| && log[k].ret.Some? :: log'[k] == log[k]
  }

  lemma LogGrows(s: State, a: Step)
    requires Inv(s) && Enabled(s, a)
    ensures LogLater(s.log, Apply(s, a).log)
  {
    hide CloseInv, DeliveryInv, TransferInv, Closed, Sum;
  }

  lemma ResultLater(s: State, s': State, t: Thread)
    requires ResultOk(s, t) && LogLater(s.log, s'.log)
    ensures ResultOk(s', t)
  {
    if t.WriteDone? && t.locked {
      var k :| 0 <= k < |s.log| && s.log[k].b == t.orig && s.log[k].ret == Some((t.n, t.wr));
      assert s'.log[k] == s.log[k];
    }
  }

  /** Leaving Write with the lock held writes down what is returned. */
  lemma ReturnLogged(s: State, i: nat, err: Option<Error>)
    requires LogInv(s) && At(s, i) && s.holder == Some(i)
    requires !s.threads[i].WriteDone? && Critical(s.threads[i])
    ensures var t := s.threads[i]; ResultOk(Return(s, i, true, t.orig, t.n, err), WriteDone(t.orig, t.n, err, true))
  {
    hide Closed, Sum, Enough;
    var t := s.threads[i];
    var s' := Return(s, i, true, t.orig, t.n, err);
    var k := |s.log| - 1;
    assert s'.log[k].b == t.orig && s'.log[k].ret == Some((t.n, err));
  }

  ghost predicate ResultsOk(s: State) { forall i | 0 <= i < |s.threads| :: ResultOk(s, s.threads[i]) }

  lemma MovedResult(s: State, a: Step, i: nat)
    requires Inv(s) && Enabled(s, a) && i < |s.threads| && ResultOk(s, s.threads[i])
    requires i == Mover(a) || i == Other(a)
    requires |Apply(s, a).threads| == |s.threads|
    ensures ResultOk(Apply(s, a), Apply(s, a).threads[i])
  {
    hide CloseInv, TransferInv, DeliveryInv, LogInv, Logged;
    if a.DoWriteReturn? {
      HolderOf(s, i);
      ReturnLogged(s, i, None);
    } else if a.DoWriteLoadR? && s.threads[i].locked {
      HolderOf(s, i);
      ReturnLogged(s, i, Some(CloseError(s.threads[i].werr, s.rerr)));
    } else {
      hide Inv, ResultOk;
      if a.DoWriteLoadW? || a.DoWriteLoadR? {
        WithoutLock(s, a, i);
      } else {
        NotReturning(s, a, i);
      }
    }
  }

  lemma NotReturning(s: State, a: Step, i: nat)
    requires Enabled(s, a) && i < |s.threads| && |Apply(s, a).threads| == |s.threads|
    requires (i == Mover(a) || i == Other(a)) && !a.DoWriteReturn? && !a.DoWriteLoadW? && !a.DoWriteLoadR?
    ensures ResultOk(Apply(s, a), Apply(s, a).threads[i])
  {
    hide Logged, CloseError, Return, Amend;
  }

  lemma WithoutLock(s: State, a: Step, i: nat)
    requires Enabled(s, a) && (a.DoWriteLoadW? || a.DoWriteLoadR?) && a.i == i && ResultOk(s, s.threads[i])
    requires |Apply(s, a).threads| == |s.threads| && !(a.DoWriteLoadR? && s.threads[i].locked)
    ensures ResultOk(Apply(s, a), Apply(s, a).threads[i])
  {
  }

  lemma StepResults(s: State, a: Step)
    requires Inv(s) && ResultsOk(s) && Enabled(s, a)
    ensures ResultsOk(Apply(s, a))
  {
    hide Inv, Apply, Enabled, ResultOk;
    var s' := Apply(s, a);
    StepLater(s, a);
    LogGrows(s, a);
    forall i | 0 <= i < |s'.threads|
      ensures ResultOk(s', s'.threads[i])
    {
      if i == Mover(a) || i == Other(a) {
        MovedResult(s, a, i);
      } else {
        OnlyMoved(s, a, i);
        ResultLater(s, s', s.threads[i]);
      }
    }
  }

  lemma {:induction false} RunResults(count: nat, steps: seq<Step>)
    requires Runs(count, steps)
    ensures ResultsOk(Run(count, steps))
    decreases |steps|
  {
    hide Inv, Apply, Enabled;
    if steps != [] {
      var front := steps[..|steps| - 1];
      RunInv(count, front);
      RunResults(count, front);
      StepResults(Run(count, front), steps[|steps| - 1]);
    }
  }

  /** A thread inside the given call, or just out of it; late says that the pipe was closed
      before the call began. A late call transfers nothing and fails. */
  predicate OfCall(a: Step, late: bool, t: Thread)
    requires IsStart(a)
  {
    match a
    case StartRead(_, cap) =>
      (match t
       case ReadPoll(c) => c == cap
       case ReadWait(c) => c == cap && !late
       case ReadGot(c, _) => c == cap && !late
       case ReadReply(c, data) => c == cap && !late && |data| <= cap
       case ReadLoadR(c) => c == cap
       case ReadLoadW(c, _) => c == cap
       case ReadDone(c, data, rr) => c == cap && |data| <= cap && (late ==> rr.Some?) && (rr.Some? ==> data == [])
       case _ => false)
    case StartWrite(_, b) =>
      (match t
       case WritePoll(orig) => orig == b
       case WriteLock(orig) => orig == b && !late
       case WriteLoop(orig, _, _, _) => orig == b && !late
       case WriteAwait(orig, _, _) => orig == b && !late
       case WriteLoadW(orig, n, _) => orig == b && (late ==> n == 0)
       case WriteLoadR(orig, n, _, _) => orig == b && (late ==> n == 0)
       case WriteDone(orig, n, wr, _) => orig == b && (late ==> n == 0 && wr.Some?)
       case _ => false)
    case StartClose(_, side, err) =>
      (match t
       case CloseStore(sd, e) => sd == side && e == CloseWith(side, err)
       case CloseOnce(sd) => sd == side
       case Idle => true
       case _ => false)
  }

  /** The error a close stores (lines 89-91 and 134-136). */
  function CloseWith(side: bool, err: Option<Error>): Error {
    match err
    case Some(e) => e
    case None => if side then ErrClosedPipe else EOF
  }

  predicate StartsAt(a: Step, i: nat) { IsStart(a) && a.i == i }

  lemma StepOfCall(s: State, a: Step, late: bool, b: Step)
    requires IsStart(a) && a.i < |s.threads| && OfCall(a, late, s.threads[a.i]) && (late ==> IsDone(s))
    requires Enabled(s, b) && !StartsAt(b, a.i)
    ensures a.i < |Apply(s, b).threads| && OfCall(a, late, Apply(s, b).threads[a.i])
  {
    hide Apply, Enabled, OfCall;
    StepLater(s, b);
    if a.i != Mover(b) && a.i != Other(b) {
      OnlyMoved(s, b, a.i);
    } else {
      match a
      case StartRead(_, _) => StepOfRead(s, a, late, b);
      case StartWrite(_, _) => StepOfWrite(s, a, late, b);
      case StartClose(_, _, _) => StepOfClose(s, a, late, b);
    }
  }

  lemma StepOfRead(s: State, a: Step, late: bool, b: Step)
    requires a.StartRead? && a.i < |s.threads| && OfCall(a, late, s.threads[a.i]) && (late ==> IsDone(s))
    requires Enabled(s, b) && !StartsAt(b, a.i) && (a.i == Mover(b) || a.i == Other(b))
    ensures a.i < |Apply(s, b).threads| && OfCall(a, late, Apply(s, b).threads[a.i])
  {
    hide Amend, Last, CloseError, StoreOnce;
  }

  lemma StepOfWrite(s: State, a: Step, late: bool, b: Step)
    requires a.StartWrite? && a.i < |s.threads| && OfCall(a, late, s.threads[a.i]) && (late ==> IsDone(s))
    requires Enabled(s, b) && !StartsAt(b, a.i) && (a.i == Mover(b) || a.i == Other(b))
    ensures a.i < |Apply(s, b).threads| && OfCall(a, late, Apply(s, b).threads[a.i])
  {
    hide Amend, Last, CloseError, StoreOnce, Min;
  }

  lemma StepOfClose(s: State, a: Step, late: bool, b: Step)
    requires a.StartClose? && a.i < |s.threads| && OfCall(a, late, s.threads[a.i])
    requires Enabled(s, b) && !StartsAt(b, a.i) && (a.i == Mover(b) || a.i == Other(b))
    ensures a.i < |Apply(s, b).threads| && OfCall(a, late, Apply(s, b).threads[a.i])
  {
    hide Amend, Last, CloseError, StoreOnce, Min;
  }

  /** The call in progress, or the result of the last one, is that of the call made: its
      arguments are kept, and if the pipe was closed before, it transfers nothing and fails. */
  lemma {:induction false} CallKept(count: nat, steps: seq<Step>, k: nat)
    requires Runs(count, steps) && k < |steps| && IsStart(steps[k])
    requires forall m | k < m < |steps| :: !StartsAt(steps[m], steps[k].i)
    ensures Runs(count, steps[..k])
    ensures var s := Run(count, steps); var late := IsDone(Run(count, steps[..k]));
      steps[k].i < |s.threads| && OfCall(steps[k], late, s.threads[steps[k].i]) && (late ==> IsDone(s))
    decreases |steps|
  {
    hide Apply, Enabled, OfCall;
    var front, b := steps[..|steps| - 1], steps[|steps| - 1];
    var s := Run(count, front);
    StepLater(s, b);
    if k < |steps| - 1 {
      CallKept(count, front, k);
      assert front[..k] == steps[..k];
      StepOfCall(s, steps[k], IsDone(Run(count, steps[..k])), b);
    } else {
      assert front == steps[..k];
      StartOfCall(s, b);
    }
  }

  lemma StartOfCall(s: State, a: Step)
    requires Enabled(s, a) && IsStart(a)
    ensures a.i < |Apply(s, a).threads| && OfCall(a, IsDone(s), Apply(s, a).threads[a.i])
  {
  }

  /** A Write that returned has the argument it was called with, and returned the count that
      its record in lock order has; so by WriteReturns it says exactly what was taken. */
  lemma WriteResult(count: nat, steps: seq<Step>, k: nat)
    requires Runs(count, steps) && k < |steps| && steps[k].StartWrite?
    requires forall m | k < m < |steps| :: !StartsAt(steps[m], steps[k].i)
    requires steps[k].i < |Run(count, steps).threads| && Resting(Run(count, steps).threads[steps[k].i])
    ensures var s := Run(count, steps); var t := s.threads[steps[k].i];
      && t.WriteDone? && t.orig == steps[k].b
      && if t.locked then Logged(s.log, t) else t.n == 0 && t.wr.Some?
  {
    hide Apply, Enabled, Logged, Run, Runs;
    CallKept(count, steps, k);
    RunResults(count, steps);
    assert ResultOk(Run(count, steps), Run(count, steps).threads[steps[k].i]);
  }

  // ----- what a close does -----

  function SideError(s: State, side: bool): Option<Error> { if side then s.rerr else s.werr }

  /** Once a close has returned the pipe is closed and an error of its side stored. */
  lemma {:induction false} CloseReturns(count: nat, steps: seq<Step>, k: nat)
    requires Runs(count, steps) && k < |steps| && steps[k].StartClose?
    requires forall m | k < m < |steps| :: !StartsAt(steps[m], steps[k].i)
    ensures var s := Run(count, steps); var i := steps[k].i;
      i < |s.threads| && (s.threads[i].Idle? ==> IsDone(s) && SideError(s, steps[k].side).Some?)
    decreases |steps|
  {
    hide Apply, Enabled, Inv, OfCall, IsDone, SideError;
    var front, b := steps[..|steps| - 1], steps[|steps| - 1];
    var s := Run(count, front);
    if k < |steps| - 1 {
      CallKept(count, front, k);
      assert front[..k] == steps[..k];
      CloseReturns(count, front, k);
      RunInv(count, front);
      StepClosed(s, steps[k], IsDone(Run(count, steps[..k])), b);
    } else {
      StartCloses(s, b);
    }
  }

  lemma StartCloses(s: State, a: Step)
    requires Enabled(s, a) && a.StartClose?
    ensures a.i < |Apply(s, a).threads| && !Apply(s, a).threads[a.i].Idle?
  {
  }

  lemma StepClosed(s: State, a: Step, late: bool, b: Step)
    requires Inv(s) && a.StartClose? && a.i < |s.threads| && OfCall(a, late, s.threads[a.i])
    requires s.threads[a.i].Idle? ==> IsDone(s) && SideError(s, a.side).Some?
    requires Enabled(s, b) && !StartsAt(b, a.i)
    ensures var s' := Apply(s, b);
      a.i < |s'.threads| && (s'.threads[a.i].Idle? ==> IsDone(s') && SideError(s', a.side).Some?)
  {
    hide LockInv, TransferInv, LogInv, DeliveryInv;
    StepLater(s, b);
    assert CloseThreadInv(s, s.threads[a.i]);
    if a.i != Mover(b) && a.i != Other(b) { OnlyMoved(s, b, a.i); }
  }

  /** Some close of this side was given this error. */
  ghost predicate Given(steps: seq<Step>, side: bool, e: Error) {
    exists m :: 0 <= m < |steps| && steps[m].StartClose? && steps[m].side == side && e == CloseWith(side, steps[m].err)
  }

  ghost predicate AllGiven(steps: seq<Step>, s: State) {
    && (s.rerr.Some? ==> Given(steps, true, s.rerr.value))
    && (s.werr.Some? ==> Given(steps, false, s.werr.value))
    && forall i | 0 <= i < |s.threads| && s.threads[i].CloseStore? :: Given(steps, s.threads[i].side, s.threads[i].err)
  }

  /** The errors stored are errors that a close of that side was given. */
  lemma {:induction false} ErrorsGiven(count: nat, steps: seq<Step>)
    requires Runs(count, steps)
    ensures AllGiven(steps, Run(count, steps))
    decreases |steps|
  {
    hide Apply, Enabled;
    if steps != [] {
      var front := steps[..|steps| - 1];
      ErrorsGiven(count, front);
      StepGiven(front, Run(count, front), steps[|steps| - 1]);
      assert front + [steps[|steps| - 1]] == steps;
    }
  }

  lemma GivenLater(steps: seq<Step>, a: Step)
    ensures forall side, e :: Given(steps, side, e) ==> Given(steps + [a], side, e)
    ensures a.StartClose? ==> Given(steps + [a], a.side, CloseWith(a.side, a.err))
  {
    var steps' := steps + [a];
    assert steps'[|steps|] == a;
    forall side, e | Given(steps, side, e)
      ensures Given(steps', side, e)
    {
      var m :| 0 <= m < |steps| && steps[m].StartClose? && steps[m].side == side && e == CloseWith(side, steps[m].err);
      assert steps'[m] == steps[m];
    }
  }

  lemma StepGiven(steps: seq<Step>, s: State, a: Step)
    requires Enabled(s, a) && AllGiven(steps, s)
    ensures AllGiven(steps + [a], Apply(s, a))
  {
    hide Given, CloseError, Amend, Last;
    GivenLater(steps, a);
    var s' := Apply(s, a);
    StepLater(s, a);
    forall i | 0 <= i < |s'.threads| && s'.threads[i].CloseStore?
      ensures Given(steps + [a], s'.threads[i].side, s'.threads[i].err)
    {
      if i != Mover(a) && i != Other(a) { OnlyMoved(s, a, i); }
    }
  }

  /** A Write waiting for its count always gets it, whether or not the pipe has been
      closed meanwhile: its reader can copy or confirm. */
  lemma WriterNotStuck(count: nat, steps: seq<Step>, w: nat)
    requires Runs(count, steps)
    requires w < |Run(count, steps).threads| && Run(count, steps).threads[w].WriteAwait?
    ensures var s := Run(count, steps);
      exists r: nat :: r < |s.threads| && (Enabled(s, DoCopy(r)) || Enabled(s, DoAck(w, r)))
  {
    hide Apply, Init, CloseInv, LogInv, DeliveryInv;
    RunInv(count, steps);
    var s := Run(count, steps);
    assert s.holder == Some(w);
    var r := s.partner.value;
    assert Enabled(s, DoCopy(r)) || Enabled(s, DoAck(w, r));
  }

  /** done is closed at most once however many Close calls race, and a call that
      failed reports the other side's error unless its own side was closed. */
  lemma CloseSemantics(count: nat, steps: seq<Step>, i: nat)
    requires Runs(count, steps) && i < |Run(count, steps).threads|
    ensures var s := Run(count, steps); var t := s.threads[i];
      && s.closes <= 1
      && (t.ReadDone? && t.rr.Some? ==>
        s.werr == t.rr || (s.rerr.Some? && t.rr.value == ErrClosedPipe))
      && (t.WriteDone? && t.wr.Some? ==>
        s.rerr == t.wr || (s.werr.Some? && t.wr.value == ErrClosedPipe))
  {
    hide Apply, Enabled, Init, LockInv, TransferInv, LogInv, DeliveryInv;
    RunInv(count, steps);
    assert CloseThreadInv(Run(count, steps), Run(count, steps).threads[i]);
  }

  // ----- after Close every call returns -----

  /** Steps a goroutine may still take inside its call, a rendezvous paid for by the
      reader. */
  function Weight(t: Thread): nat {
    match t
    case Idle => 0
    case ReadPoll(_) => 9
    case ReadWait(_) => 8
    case ReadGot(_, _) => 7
    case ReadReply(_, _) => 6
    case ReadLoadR(_) => 5
    case ReadLoadW(_, _) => 4
    case ReadDone(_, _, _) => 0
    case WritePoll(_) => 5
    case WriteLock(_) => 4
    case WriteLoop(_, _, _, _) => 3
    case WriteAwait(_, _, _) => 2
    case WriteLoadW(_, _, _) => 2
    case WriteLoadR(_, _, _, _) => 1
    case WriteDone(_, _, _, _) => 0
    case CloseStore(_, _) => 2
    case CloseOnce(_) => 1
  }

  function Pending(ts: seq<Thread>): nat {
    if ts == [] then 0 else Weight(ts[0]) + Pending(ts[1..])
  }

  lemma {:induction false} PendingPut(ts: seq<Thread>, i: nat, t: Thread)
    requires i < |ts|
    ensures Pending(ts[i := t]) == Pending(ts) - Weight(ts[i]) + Weight(t)
    decreases ts
  {
    hide Weight;
    if i == 0 {
      assert ts[i := t][1..] == ts[1..];
    } else {
      assert ts[i := t][1..] == ts[1..][i - 1 := t];
      PendingPut(ts[1..], i - 1, t);
    }
  }

  predicate IsStart(a: Step) { a.StartRead? || a.StartWrite? || a.StartClose? }

  /** Every step other than a new call brings the pending calls closer to their end. */
  lemma StepsShrink(s: State, a: Step)
    requires Enabled(s, a) && !IsStart(a)
    ensures Pending(Apply(s, a).threads) < Pending(s.threads)
  {
    hide Apply, Enabled, Weight, Pending;
    MovedThreads(s, a);
    MovedWeights(s, a);
    var s' := Apply(s, a);
    var m, o := Mover(a), Other(a);
    PendingPut(s.threads, m, s'.threads[m]);
    PendingPut(s.threads[m := s'.threads[m]], o, s'.threads[o]);
  }

  lemma MovedThreads(s: State, a: Step)
    requires Enabled(s, a)
    ensures var m, o := Mover(a), Other(a); var ts := Apply(s, a).threads;
      && m < |s.threads| && o < |s.threads| && |ts| == |s.threads|
      && ts == s.threads[m := ts[m]][o := ts[o]]
  {
    hide Amend, Last, CloseError, StoreOnce, Min, Resting, Looping;
  }

  /** The goroutines of the step have less to do than before. */
  ghost predicate Drops(s: State, a: Step, s': State) {
    var m, o := Mover(a), Other(a);
    && m < |s.threads| && o < |s.threads| && |s'.threads| == |s.threads|
    && (m == o ==> Weight(s'.threads[m]) < Weight(s.threads[m]))
    && (m != o ==> Weight(s'.threads[m]) + Weight(s'.threads[o]) < Weight(s.threads[m]) + Weight(s.threads[o]))
  }

  lemma MovedWeights(s: State, a: Step)
    requires Enabled(s, a) && !IsStart(a)
    ensures Drops(s, a, Apply(s, a))
  {
    hide Apply, Enabled, Drops;
    if a.DoTransfer? || a.DoAck? {
      PairDrops(s, a);
    } else if a.DoReadPoll? || a.DoCopy? || a.DoReadSeesDone? || a.DoReadLoadR? || a.DoReadLoadW? {
      ReadDrops(s, a);
    } else {
      OtherDrops(s, a);
    }
  }

  lemma PairDrops(s: State, a: Step)
    requires Enabled(s, a) && (a.DoTransfer? || a.DoAck?)
    ensures Drops(s, a, Apply(s, a))
  {
    hide Amend, Last;
  }

  lemma ReadDrops(s: State, a: Step)
    requires Enabled(s, a) && (a.DoReadPoll? || a.DoCopy? || a.DoReadSeesDone? || a.DoReadLoadR? || a.DoReadLoadW?)
    ensures Drops(s, a, Apply(s, a))
  {
    hide CloseError, Min;
  }

  lemma OtherDrops(s: State, a: Step)
    requires Enabled(s, a) && !IsStart(a) && !a.DoTransfer? && !a.DoAck?
    requires !a.DoReadPoll? && !a.DoCopy? && !a.DoReadSeesDone? && !a.DoReadLoadR? && !a.DoReadLoadW?
    ensures Drops(s, a, Apply(s, a))
  {
    hide Amend, Last, CloseError, StoreOnce;
  }

  /** The most steps a call adds to a run: a Write's turns round its loop are paid for by
      the Reads that take its slices. */
  function Cost(a: Step): nat {
    match a
    case StartRead(_, _) => 10
    case StartWrite(_, _) => 6
    case StartClose(_, _, _) => 3
    case _ => 0
  }

  function Budget(steps: seq<Step>): nat {
    if steps == [] then 0 else Budget(steps[..|steps| - 1]) + Cost(steps[|steps| - 1])
  }

  /** A run is no longer than the calls in it allow, however much they write and whatever
      the interleaving. What is not used up is left to the pending calls. */
  lemma {:induction false} RunsEnd(count: nat, steps: seq<Step>)
    requires Runs(count, steps)
    ensures |steps| + Pending(Run(count, steps).threads) <= Budget(steps)
  {
    hide Apply, Enabled, Pending, Cost;
    if steps == [] {
      PendingIdle(count);
    } else {
      var front, a := steps[..|steps| - 1], steps[|steps| - 1];
      RunsEnd(count, front);
      StepCost(Run(count, front), a);
    }
  }

  lemma StepCost(s: State, a: Step)
    requires Enabled(s, a)
    ensures 1 + Pending(Apply(s, a).threads) <= Pending(s.threads) + Cost(a)
  {
    hide Pending;
    if IsStart(a) {
      PendingPut(s.threads, a.i, Apply(s, a).threads[a.i]);
    } else {
      StepsShrink(s, a);
    }
  }

  lemma {:induction false} PendingIdle(count: nat)
    ensures Pending(Init(count).threads) == 0
  {
    if count > 0 {
      assert Init(count).threads[1..] == Init(count - 1).threads;
      PendingIdle(count - 1);
    }
  }

  /** Once the pipe is closed no call blocks: as long as one is pending some step is
      possible. With RunsEnd every call returns. */
  lemma ClosedNeverBlocks(count: nat, steps: seq<Step>, i: nat)
    requires Runs(count, steps)
    requires IsDone(Run(count, steps)) && i < |Run(count, steps).threads| && !Resting(Run(count, steps).threads[i])
    ensures exists a: Step :: !IsStart(a) && Enabled(Run(count, steps), a)
  {
    hide Apply, Init, CloseInv, LogInv, DeliveryInv;
    RunInv(count, steps);
    var s := Run(count, steps);
    var a := CanMove(s, if s.threads[i].WriteLock? && s.holder.Some? then s.holder.value else i);
  }

  predicate Reading(t: Thread) { t.ReadPoll? || t.ReadWait? || t.ReadGot? || t.ReadReply? || t.ReadLoadR? || t.ReadLoadW? }

  predicate Writing(t: Thread) {
    t.WritePoll? || t.WriteLock? || t.WriteLoop? || t.WriteAwait? || t.WriteLoadW? || t.WriteLoadR?
  }

  /** A Read and a Write never wait for each other: while there is one of each, closed or
      not, some step inside a call is possible. With RunsEnd and WriteReturns, a Write is
      through as soon as there are Reads enough. */
  lemma PairProceeds(count: nat, steps: seq<Step>, i: nat, j: nat)
    requires Runs(count, steps) && i < |Run(count, steps).threads| && j < |Run(count, steps).threads|
    requires Reading(Run(count, steps).threads[i]) && Writing(Run(count, steps).threads[j])
    ensures exists a: Step :: !IsStart(a) && Enabled(Run(count, steps), a)
  {
    hide Apply, Init, CloseInv, LogInv, DeliveryInv;
    RunInv(count, steps);
    var s := Run(count, steps);
    if !s.threads[i].ReadWait? {
      var a := CanMove(s, i);
    } else {
      var w := if s.threads[j].WriteLock? && s.holder.Some? then s.holder.value else j;
      if Looping(s.threads[w]) {
        assert Enabled(s, DoTransfer(w, i));
      } else {
        var a := CanMove(s, w);
      }
    }
  }

  lemma CanMove(s: State, i: nat) returns (a: Step)
    requires Inv(s) && i < |s.threads| && !Resting(s.threads[i])
    requires IsDone(s) || !(s.threads[i].ReadWait? || Looping(s.threads[i]))
    requires s.threads[i].WriteLock? ==> s.holder.None?
    ensures !IsStart(a) && Enabled(s, a)
  {
    hide CloseInv, LogInv, DeliveryInv;
    match s.threads[i]
    case ReadPoll(_) => a := DoReadPoll(i);
    case ReadWait(_) => a := DoReadSeesDone(i);
    case ReadGot(_, _) => a := DoCopy(i);
    case ReadReply(_, _) => a := DoAck(s.holder.value, i);
    case ReadLoadR(_) => a := DoReadLoadR(i);
    case ReadLoadW(_, _) => a := DoReadLoadW(i);
    case WritePoll(_) => a := DoWritePoll(i);
    case WriteLock(_) => a := DoLock(i);
    case WriteLoop(_, _, _, _) => a := if Looping(s.threads[i]) then DoWriteSeesDone(i) else DoWriteReturn(i);
    case WriteAwait(_, _, _) =>
      var r := s.partner.value;
      a := if s.threads[r].ReadGot? then DoCopy(r) else DoAck(i, r);
    case WriteLoadW(_, _, _) => a := DoWriteLoadW(i);
    case WriteLoadR(_, _, _, _) => a := DoWriteLoadR(i);
    case CloseStore(_, _) => a := DoStore(i);
    case CloseOnce(_) => a := DoOnce(i);
  }
}
