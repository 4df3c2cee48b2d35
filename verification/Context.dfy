/** The cancellation tree of package context as a transition system. A goroutine is
    a stack of frames; a lock that is held across other lock operations is acquired
    and released in separate steps, a critical section without such operations is
    one step. */
module Context {

  import opened Common

  datatype Error = Canceled | DeadlineExceeded

  /** What never changes about a context: the nearest enclosing cancelCtx, and
      whether it is a timerCtx. */
  datatype Node = Node(parent: Option<nat>, timed: bool)

  /** Where a context stands: not cancelled; its cancel call is going through its
      children, todo being those not yet dealt with; or that is over. */
  datatype Phase = Active | Looping(todo: set<nat>) | Settled

  /** The mutable fields of a cancelCtx or timerCtx: lock is the goroutine holding mu,
      done the channel stored there. The last two are history: the progress of the
      first cancel call, and whether propagateCancel has finished. */
  datatype Cell = Cell(
    lock: Option<nat>, done: Option<nat>, children: set<nat>, err: Option<Error>, timer: bool,
    phase: Phase, finished: bool)

  /** The channel closedchan (line 371). */
  const CLOSED_CHAN: nat := 0

  /** Where a frame asks for a done channel, wait is set once Done has found none stored
      and needs the lock (line 400). */
  datatype Frame =
    // propagateCancel(parent, c), lines 287-323
    | PropDone(c: nat, wait: bool)      // line 288
    | PropSelect(c: nat, ch: nat)       // line 293
    | PropErr(c: nat, ch: nat)          // line 296, parent.Err()
    | PropFind(c: nat, ch: nat, wait: bool)  // line 335
    | PropCheck(c: nat, ch: nat)        // line 343, ch as loaded on line 335
    | PropLock(c: nat)                  // line 302
    | PropHold(c: nat)                  // lines 305 and 312, parent locked
    | PropGo(c: nat)                    // line 315, the goroutine for foreign contexts
    | PropEnd(c: nat)                   // WithCancel and WithDeadline go on
    | TimerArm(c: nat)                  // lines 489-495
    // cancel
    | CancelEnter(c: nat, remove: bool, err: Error)            // line 438
    | CancelLoop(c: nat, remove: bool, err: Error, cur: Option<nat>)  // lines 450-455, c locked
    | TimerStop(c: nat)                 // lines 525-530
    // removeChild(parent, c), lines 351-361
    | RemoveFind(c: nat, wait: bool)    // line 335
    | RemoveCheck(c: nat, ch: nat)      // line 343
    | RemoveLock(c: nat)                // lines 356-360
    // Done(), lines 395-408
    | DoneCall(c: nat, wait: bool)

  /** closings counts how often each channel was closed. */
  datatype State = State(tree: seq<Node>, cells: seq<Cell>, threads: seq<seq<Frame>>, closings: seq<nat>)

  datatype Step =
    | NewContext(i: nat, parent: Option<nat>, timed: bool)
    | CallCancel(i: nat, c: nat, remove: bool)
    | FireTimer(i: nat, c: nat)
    | CallDone(i: nat, c: nat)
    | Go(i: nat, child: nat, expired: bool)

  // ----- stacks -----

  predicate Busy(s: State, i: nat) { i < |s.threads| && s.threads[i] != [] }

  function Top(st: seq<Frame>): Frame
    requires st != []
  {
    st[|st| - 1]
  }

  function Rest(st: seq<Frame>): seq<Frame>
    requires st != []
  {
    st[..|st| - 1]
  }

  /** The frames of cancel(remove, err) on c, the first to run last (lines 434 and 519). */
  function CancelFrames(timed: bool, c: nat, remove: bool, err: Error): seq<Frame> {
    if !timed then [CancelEnter(c, remove, err)]
    else if remove then [TimerStop(c), RemoveFind(c, false), CancelEnter(c, false, err)]
    else [TimerStop(c), CancelEnter(c, false, err)]
  }

  // ----- steps -----

  predicate IsCtx(s: State, c: nat) { c < |s.tree| && c < |s.cells| }

  predicate HasParent(s: State, c: nat) {
    IsCtx(s, c) && s.tree[c].parent.Some? && IsCtx(s, s.tree[c].parent.value)
  }

  function ParentOf(s: State, c: nat): nat
    requires HasParent(s, c)
  {
    s.tree[c].parent.value
  }

  /** The lock a frame needs to be free in order to take its step: that of a context
      whose critical section comes next. Done() needs it only if it found no channel
      stored. */
  function Wanted(s: State, f: Frame): Option<nat> {
    match f
    case PropDone(c, wait) => if wait then ParentLock(s, c) else None
    case PropErr(c, _) => ParentLock(s, c)
    case PropFind(c, _, wait) => if wait then ParentLock(s, c) else None
    case PropLock(c) => ParentLock(s, c)
    case TimerArm(c) => Some(c)
    case CancelEnter(c, _, _) => Some(c)
    case TimerStop(c) => Some(c)
    case RemoveFind(c, wait) => if wait then ParentLock(s, c) else None
    case RemoveLock(c) => ParentLock(s, c)
    case DoneCall(c, wait) => if wait then Some(c) else None
    case _ => None
  }

  function ParentLock(s: State, c: nat): Option<nat> {
    if HasParent(s, c) then Some(ParentOf(s, c)) else None
  }

  predicate Free(s: State, w: Option<nat>) {
    w.Some? ==> IsCtx(s, w.value) && s.cells[w.value].lock.None?
  }

  predicate Enabled(s: State, a: Step) {
    match a
    case NewContext(i, parent, timed) =>
      && i < |s.threads| && s.threads[i] == [] && |s.tree| == |s.cells|
      && (parent.Some? ==> IsCtx(s, parent.value) && s.cells[parent.value].finished)
    case CallCancel(i, c, remove) =>
      // only the CancelFunc of a context whose deadline had passed leaves removing out (line 487)
      i < |s.threads| && s.threads[i] == [] && IsCtx(s, c) && s.cells[c].finished && (remove || s.cells[c].err.Some?)
    case FireTimer(i, c) =>
      i < |s.threads| && s.threads[i] == [] && IsCtx(s, c) && s.cells[c].timer
    case CallDone(i, c) =>
      i < |s.threads| && s.threads[i] == [] && IsCtx(s, c) && s.cells[c].finished
    case Go(i, child, _) =>
      && Busy(s, i) && Free(s, Wanted(s, Top(s.threads[i]))) && IsCtx(s, Top(s.threads[i]).c)
      && (Top(s.threads[i]).CancelLoop? && Top(s.threads[i]).cur.None? ==>
        var p := s.cells[Top(s.threads[i]).c].phase; p.Looping? && p.todo != {} ==> child in p.todo)
  }

  function SetStack(s: State, i: nat, st: seq<Frame>): State
    requires i < |s.threads|
  {
    s.(threads := s.threads[i := st])
  }

  function SetCell(s: State, c: nat, cell: Cell): State
    requires c < |s.cells|
  {
    s.(cells := s.cells[c := cell])
  }

  /** Done finds no channel on its first look (line 396). */
  predicate MustWait(s: State, p: nat, wait: bool)
    requires p < |s.cells|
  {
    !wait && s.cells[p].done.None?
  }

  function Waiting(f: Frame): Frame {
    match f
    case PropDone(c, _) => PropDone(c, true)
    case PropFind(c, ch, _) => PropFind(c, ch, true)
    case RemoveFind(c, _) => RemoveFind(c, true)
    case DoneCall(c, _) => DoneCall(c, true)
    case _ => f
  }

  /** p.Done(): the stored channel, made first if there is none. */
  function DoneOf(s: State, p: nat): (State, nat)
    requires p < |s.cells|
  {
    if s.cells[p].done.Some? then (s, s.cells[p].done.value)
    else
      (SetCell(s, p, s.cells[p].(done := Some(|s.closings|))).(closings := s.closings + [0]), |s.closings|)
  }

  predicate IsClosed(s: State, ch: nat) { ch < |s.closings| && s.closings[ch] > 0 }

  /** Lines 443-449: err, and the channel closed, or closedchan stored if there is none. */
  function MarkCancelled(s: State, c: nat, i: nat, err: Error): State
    requires c < |s.cells|
  {
    var cell := s.cells[c];
    var cell' := cell.(lock := Some(i), err := Some(err), phase := Looping(cell.children));
    if cell.done.None? then
      SetCell(s, c, cell'.(done := Some(CLOSED_CHAN)))
    else
      var ch := cell.done.value;
      SetCell(s, c, cell').(closings := if ch < |s.closings| then s.closings[ch := s.closings[ch] + 1] else s.closings)
  }

  function Apply(s: State, a: Step): State
    requires Enabled(s, a)
  {
    match a
    case NewContext(i, parent, timed) =>
      s.(tree := s.tree + [Node(parent, timed)],
         cells := s.cells + [Cell(None, None, {}, None, false, Active, false)],
         threads := s.threads[i := [PropDone(|s.tree|, false)]])
    case CallCancel(i, c, remove) => SetStack(s, i, CancelFrames(s.tree[c].timed, c, remove, Canceled))
    case FireTimer(i, c) => SetStack(s, i, CancelFrames(s.tree[c].timed, c, true, DeadlineExceeded))
    case CallDone(i, c) => SetStack(s, i, [DoneCall(c, false)])
    case Go(i, child, expired) => ApplyGo(s, i, child, expired)
  }

  /** One step of goroutine i in its topmost frame. */
  function ApplyGo(s: State, i: nat, child: nat, expired: bool): State
    requires Enabled(s, Go(i, child, expired))
  {
    var f := Top(s.threads[i]);
    var st := Rest(s.threads[i]);
    match f
    case PropDone(c, wait) =>
      if !HasParent(s, c) then SetStack(s, i, st + [PropEnd(c)])
      else if MustWait(s, ParentOf(s, c), wait) then SetStack(s, i, st + [Waiting(f)])
      else
        var d := DoneOf(s, ParentOf(s, c));
        SetStack(d.0, i, st + [PropSelect(c, d.1)])
    case PropSelect(c, ch) =>
      SetStack(s, i, st + [if IsClosed(s, ch) then PropErr(c, ch) else PropFind(c, ch, false)])
    case PropErr(c, ch) =>
      if HasParent(s, c) && s.cells[ParentOf(s, c)].err.Some? then
        SetStack(s, i, st + [PropEnd(c)] + CancelFrames(s.tree[c].timed, c, false, s.cells[ParentOf(s, c)].err.value))
      else SetStack(s, i, st + [PropGo(c)])  // cancel panics on a missing error
    case PropFind(c, ch, wait) =>
      if !HasParent(s, c) then SetStack(s, i, st + [PropGo(c)])
      else if MustWait(s, ParentOf(s, c), wait) then SetStack(s, i, st + [Waiting(f)])
      else
        var d := DoneOf(s, ParentOf(s, c));
        SetStack(d.0, i, st + [if d.1 == CLOSED_CHAN then PropGo(c) else PropCheck(c, d.1)])
    case PropCheck(c, ch) =>
      SetStack(s, i, st + [if HasParent(s, c) && s.cells[ParentOf(s, c)].done == Some(ch) then PropLock(c) else PropGo(c)])
    case PropLock(c) =>
      if !HasParent(s, c) then SetStack(s, i, st + [PropGo(c)])
      else
        var p := ParentOf(s, c);
        if s.cells[p].err.None? then
          SetStack(SetCell(s, p, s.cells[p].(children := s.cells[p].children + {c})), i, st + [PropEnd(c)])
        else
          SetStack(SetCell(s, p, s.cells[p].(lock := Some(i))), i,
                   st + [PropHold(c)] + CancelFrames(s.tree[c].timed, c, false, s.cells[p].err.value))
    case PropHold(c) =>
      if !HasParent(s, c) then SetStack(s, i, st + [PropEnd(c)])
      else SetStack(SetCell(s, ParentOf(s, c), s.cells[ParentOf(s, c)].(lock := None)), i, st + [PropEnd(c)])
    case PropGo(c) => SetStack(s, i, st + [PropEnd(c)])
    case PropEnd(c) =>
      var s1 := SetCell(s, c, s.cells[c].(finished := true));
      if !s.tree[c].timed then SetStack(s1, i, st)
      else if expired then SetStack(s1, i, st + CancelFrames(true, c, true, DeadlineExceeded))
      else SetStack(s1, i, st + [TimerArm(c)])
    case TimerArm(c) =>
      SetStack(SetCell(s, c, s.cells[c].(timer := s.cells[c].timer || s.cells[c].err.None?)), i, st)
    case CancelEnter(c, remove, err) =>
      if s.cells[c].err.Some? then SetStack(s, i, st)
      else SetStack(MarkCancelled(s, c, i, err), i, st + [CancelLoop(c, remove, err, None)])
    case CancelLoop(c, remove, err, cur) =>
      if !s.cells[c].phase.Looping? then SetStack(s, i, st)
      else if cur.Some? then
        SetStack(SetCell(s, c, s.cells[c].(phase := Looping(s.cells[c].phase.todo - {cur.value}))), i,
                 st + [CancelLoop(c, remove, err, None)])
      else if s.cells[c].phase.todo == {} then
        SetStack(SetCell(s, c, s.cells[c].(lock := None, children := {}, phase := Settled)), i,
                 if remove then st + [RemoveFind(c, false)] else st)
      else
        SetStack(s, i, st + [CancelLoop(c, remove, err, Some(child))]
                       + CancelFrames(child < |s.tree| && s.tree[child].timed, child, false, err))
    case TimerStop(c) => SetStack(SetCell(s, c, s.cells[c].(timer := false)), i, st)
    case RemoveFind(c, wait) =>
      if !HasParent(s, c) then SetStack(s, i, st)
      else if MustWait(s, ParentOf(s, c), wait) then SetStack(s, i, st + [Waiting(f)])
      else
        var d := DoneOf(s, ParentOf(s, c));
        SetStack(d.0, i, if d.1 == CLOSED_CHAN then st else st + [RemoveCheck(c, d.1)])
    case RemoveCheck(c, ch) =>
      SetStack(s, i, if HasParent(s, c) && s.cells[ParentOf(s, c)].done == Some(ch) then st + [RemoveLock(c)] else st)
    case RemoveLock(c) =>
      if !HasParent(s, c) then SetStack(s, i, st)
      else
        var p := ParentOf(s, c);
        SetStack(SetCell(s, p, s.cells[p].(children := s.cells[p].children - {c})), i, st)
    case DoneCall(c, wait) =>
      if MustWait(s, c, wait) then SetStack(s, i, st + [Waiting(f)])
      else SetStack(DoneOf(s, c).0, i, st)
  }

  function Init(count: nat): State {
    State([], [], seq(count, _ => []), [1])
  }

  // ----- invariants of stacks -----

  predicate IsRemove(f: Frame) { f.RemoveFind? || f.RemoveCheck? || f.RemoveLock? }

  /** The frames of a cancel call without removal: the form in which a child is
      cancelled. */
  predicate IsCancelOf(f: Frame, c: nat) {
    f.c == c && (f.TimerStop? || (f.CancelEnter? && !f.remove) || (f.CancelLoop? && !f.remove))
  }

  predicate IsNode(tree: seq<Node>, c: nat) { c < |tree| }

  predicate IsChild(tree: seq<Node>, d: nat, p: nat) {
    IsNode(tree, d) && IsNode(tree, p) && tree[d].parent == Some(p)
  }

  predicate IsHeldByParent(tree: seq<Node>, c: nat) { IsNode(tree, c) && tree[c].parent.Some? }

  predicate NeedsParent(f: Frame) {
    f.PropSelect? || f.PropErr? || f.PropFind? || f.PropCheck? || f.PropLock? || f.PropHold? || f.RemoveCheck? || f.RemoveLock?
  }

  ghost predicate FrameOk(tree: seq<Node>, f: Frame) {
    && IsNode(tree, f.c)
    && (NeedsParent(f) ==> tree[f.c].parent.Some?)
    && (f.CancelLoop? && f.cur.Some? ==> IsChild(tree, f.cur.value, f.c))
    && !f.PropGo?
  }

  /** Which frame may stand directly on which. */
  predicate Above(g: Frame, f: Frame) {
    match g
    case CancelLoop(_, _, _, cur) => cur.Some? && IsCancelOf(f, cur.value)
    case PropHold(c) => IsCancelOf(f, c)
    case PropEnd(c) => IsCancelOf(f, c)
    case TimerStop(c) => f.c == c && (IsRemove(f) || (IsCancelOf(f, c) && !f.TimerStop?))
    case RemoveFind(c, _) => IsCancelOf(f, c) && !f.TimerStop?
    case _ => false
  }

  ghost predicate StackOk(tree: seq<Node>, st: seq<Frame>) {
    st == [] ||
    (&& FrameOk(tree, Top(st))
     && StackOk(tree, Rest(st))
     && (Rest(st) != [] ==> Above(Top(Rest(st)), Top(st)))
     && (IsRemove(Top(st)) ==> |st| <= 2))
  }

  lemma SnocStack(st: seq<Frame>, f: Frame)
    ensures Top(st + [f]) == f && Rest(st + [f]) == st
  {
  }

  lemma PushFrame(tree: seq<Node>, st: seq<Frame>, f: Frame)
    requires StackOk(tree, st) && FrameOk(tree, f)
    requires st != [] ==> Above(Top(st), f)
    requires IsRemove(f) ==> |st| <= 1
    ensures StackOk(tree, st + [f])
  {
    SnocStack(st, f);
  }

  /** The locks a stack holds: those of contexts being cancelled, and that of a
      parent that turned out to be cancelled already. */
  function HeldBy(tree: seq<Node>, f: Frame): set<nat> {
    match f
    case CancelLoop(c, _, _, _) => {c}
    case PropHold(c) => if IsHeldByParent(tree, c) then {tree[c].parent.value} else {}
    case _ => {}
  }

  function Held(tree: seq<Node>, st: seq<Frame>): set<nat> {
    if st == [] then {} else Held(tree, Rest(st)) + HeldBy(tree, Top(st))
  }

  lemma HeldSnoc(tree: seq<Node>, st: seq<Frame>, f: Frame)
    ensures Held(tree, st + [f]) == Held(tree, st) + HeldBy(tree, f)
  {
    SnocStack(st, f);
  }

  /** Pushing the frames of a cancel call of c. */
  lemma PushCancel(tree: seq<Node>, st: seq<Frame>, c: nat, remove: bool, err: Error)
    requires StackOk(tree, st) && IsNode(tree, c)
    requires st != [] ==> !remove && (Top(st).PropHold? || Top(st).PropEnd? || Top(st).CancelLoop?) && Above(Top(st), CancelEnter(c, false, err))
    ensures var st' := st + CancelFrames(tree[c].timed, c, remove, err);
      && StackOk(tree, st') && Held(tree, st') == Held(tree, st)
      && st' != [] && Top(st').CancelEnter?
  {
    hide StackOk, Held, FrameOk;
    CancelFrameOk(tree, c, remove, err);
    if !tree[c].timed {
      PushPlain(tree, st, CancelEnter(c, remove, err));
    } else if !remove {
      PushPlain(tree, st, TimerStop(c));
      PushPlain(tree, st + [TimerStop(c)], CancelEnter(c, false, err));
      assert st + [TimerStop(c), CancelEnter(c, false, err)] == st + [TimerStop(c)] + [CancelEnter(c, false, err)];
    } else {
      PushPlain(tree, st, TimerStop(c));
      var st1 := st + [TimerStop(c)];
      PushPlain(tree, st1, RemoveFind(c, false));
      PushPlain(tree, st1 + [RemoveFind(c, false)], CancelEnter(c, false, err));
      assert st + [TimerStop(c), RemoveFind(c, false), CancelEnter(c, false, err)] == st1 + [RemoveFind(c, false)] + [CancelEnter(c, false, err)];
    }
  }

  lemma CancelFrameOk(tree: seq<Node>, c: nat, remove: bool, err: Error)
    requires IsNode(tree, c)
    ensures FrameOk(tree, CancelEnter(c, remove, err)) && FrameOk(tree, CancelEnter(c, false, err))
    ensures FrameOk(tree, TimerStop(c)) && FrameOk(tree, RemoveFind(c, false))
  {
  }

  /** A frame that holds no lock. */
  lemma PushPlain(tree: seq<Node>, st: seq<Frame>, f: Frame)
    requires StackOk(tree, st) && FrameOk(tree, f) && HeldBy(tree, f) == {}
    requires st != [] ==> Above(Top(st), f)
    requires IsRemove(f) ==> |st| <= 1
    ensures StackOk(tree, st + [f]) && Held(tree, st + [f]) == Held(tree, st)
    ensures Top(st + [f]) == f
  {
    hide StackOk, Held, FrameOk;
    PushFrame(tree, st, f);
    HeldSnoc(tree, st, f);
    SnocStack(st, f);
  }

  ghost predicate TreeOk(tree: seq<Node>) {
    forall c | 0 <= c < |tree| && tree[c].parent.Some? :: tree[c].parent.value < c
  }

  /** Locks are taken from parent to child: a lock held below the top frame belongs to
      a proper ancestor of the context the top frame works on. */
  ghost predicate Ancestor(tree: seq<Node>, a: nat, d: nat)
    requires TreeOk(tree)
    decreases d
  {
    a == d || (IsHeldByParent(tree, d) && Ancestor(tree, a, tree[d].parent.value))
  }

  lemma {:induction false} HeldAreAncestors(tree: seq<Node>, st: seq<Frame>, h: nat)
    requires TreeOk(tree) && StackOk(tree, st) && st != [] && h in Held(tree, Rest(st))
    ensures h < Top(st).c && Ancestor(tree, h, Top(st).c)
    ensures !IsRemove(Top(st))
    decreases |st|
  {
    var st1 := Rest(st);
    var f, g := Top(st), Top(st1);
    if h in Held(tree, Rest(st1)) {
      HeldAreAncestors(tree, st1, h);
      assert |st1| >= 2;
    }
  }

  // ----- invariants of states -----

  ghost predicate SettledAt(s: State, c: nat) { IsCtx(s, c) && s.cells[c].phase.Settled? }

  /** c is certain to be cancelled with its parent: there is none, or c is cancelled,
      or it is among the children the parent has, or still has to deal with. */
  ghost predicate Attached(s: State, c: nat) {
    && IsCtx(s, c)
    && (s.tree[c].parent.None? || SettledAt(s, c)
        || (HasParent(s, c) && match s.cells[ParentOf(s, c)].phase
             case Active => c in s.cells[ParentOf(s, c)].children
             case Looping(todo) => c in todo
             case Settled => false))
  }

  /** The parent's done channel as a frame remembers it. */
  ghost predicate ParentChan(s: State, c: nat, ch: nat) {
    HasParent(s, c) && s.cells[ParentOf(s, c)].done == Some(ch)
  }

  /** What is known when a frame is on top. */
  ghost predicate TopOk(s: State, f: Frame) {
    match f
    case PropSelect(c, ch) => ParentChan(s, c, ch)
    case PropErr(c, ch) => ParentChan(s, c, ch) && IsClosed(s, ch)
    case PropFind(c, ch, _) => ParentChan(s, c, ch) && ch != CLOSED_CHAN
    case PropCheck(c, ch) => ParentChan(s, c, ch) && ch != CLOSED_CHAN
    case PropHold(c) => SettledAt(s, c)
    case PropEnd(c) => Attached(s, c)
    case CancelLoop(c, _, _, cur) => cur.Some? ==> SettledAt(s, cur.value)
    case TimerStop(c) => SettledAt(s, c)
    case RemoveFind(c, _) => SettledAt(s, c)
    case RemoveCheck(c, ch) => SettledAt(s, c)
    case RemoveLock(c) => SettledAt(s, c)
    case _ => true
  }

  /** What is known of a frame anywhere on a stack. */
  ghost predicate PhaseOk(s: State, f: Frame) {
    && (f.CancelLoop? ==> IsCtx(s, f.c) && s.cells[f.c].phase.Looping?)
    && (f.PropHold? ==> HasParent(s, f.c) && SettledAt(s, ParentOf(s, f.c)))
  }

  ghost predicate StackInv(s: State, st: seq<Frame>) {
    && StackOk(s.tree, st)
    && (st != [] ==> TopOk(s, Top(st)))
    && (forall k | 0 <= k < |st| :: PhaseOk(s, st[k]))
  }

  /** Only children are listed as children. */
  ghost predicate KnownChildren(tree: seq<Node>, c: nat, cell: Cell) {
    && (forall d | d in cell.children :: IsChild(tree, d, c))
    && (cell.phase.Looping? ==> forall d | d in cell.phase.todo :: IsChild(tree, d, c))
  }

  ghost predicate CellOk(s: State, c: nat)
    requires IsCtx(s, c)
  {
    var cell := s.cells[c];
    && (cell.err.None? <==> cell.phase.Active?)
    && (cell.phase.Looping? ==> cell.lock.Some?)
    && (cell.finished ==> Attached(s, c))
    && (s.tree[c].parent.Some? ==> HasParent(s, c) && s.cells[ParentOf(s, c)].finished)
    && KnownChildren(s.tree, c, cell)
    // channels
    && (cell.done.Some? ==> cell.done.value < |s.closings|)
    && (cell.err.Some? ==> cell.done.Some? && IsClosed(s, cell.done.value))
    && (cell.err.None? && cell.done.Some? ==> cell.done.value != CLOSED_CHAN && !IsClosed(s, cell.done.value))
  }

  /** No two contexts share a channel other than closedchan, and no channel is closed
      twice. */
  ghost predicate ChanInv(s: State) {
    && |s.closings| > 0 && s.closings[0] == 1
    && (forall ch | 0 <= ch < |s.closings| :: s.closings[ch] <= 1)
    && (forall c, d | 0 <= c < |s.cells| && 0 <= d < |s.cells| && c != d && s.cells[c].done.Some? ::
          s.cells[c].done.value == CLOSED_CHAN || s.cells[d].done != s.cells[c].done)
  }

  ghost predicate LockInv(s: State) {
    && (forall i, c | 0 <= i < |s.threads| && c in Held(s.tree, s.threads[i]) ::
          IsCtx(s, c) && s.cells[c].lock == Some(i))
    && (forall c | 0 <= c < |s.cells| && s.cells[c].lock.Some? ::
          s.cells[c].lock.value < |s.threads| && c in Held(s.tree, s.threads[s.cells[c].lock.value]))
  }

  ghost predicate Inv(s: State) {
    && |s.tree| == |s.cells| && TreeOk(s.tree)
    && (forall c | 0 <= c < |s.cells| :: CellOk(s, c))
    && ChanInv(s)
    && LockInv(s)
    && (forall i | 0 <= i < |s.threads| :: StackInv(s, s.threads[i]))
  }

  // ----- what never changes back -----

  /** Errors, channels, finished and settled contexts stay; attachment stays. */
  ghost predicate Later(s: State, s': State) {
    && s.tree <= s'.tree && |s'.tree| == |s'.cells| && |s.tree| == |s.cells|
    && |s.closings| <= |s'.closings|
    && (forall ch | 0 <= ch < |s.closings| :: s.closings[ch] <= s'.closings[ch])
    && forall c | 0 <= c < |s.cells| :: CellLater(s, s', c)
  }

  ghost predicate CellLater(s: State, s': State, c: nat)
    requires c < |s.cells| <= |s'.cells|
  {
    var cell, cell' := s.cells[c], s'.cells[c];
    && (cell.err.Some? ==> cell'.err == cell.err)
    && (cell.done.Some? ==> cell'.done == cell.done)
    && (cell.finished ==> cell'.finished)
    && (cell.phase.Settled? ==> cell'.phase.Settled?)
    && (Attached(s, c) ==> Attached(s', c))
  }

  lemma TopLater(s: State, s': State, f: Frame)
    requires Later(s, s') && TopOk(s, f)
    ensures TopOk(s', f)
  {
    assert IsCtx(s, f.c) ==> CellLater(s, s', f.c);
    assert HasParent(s, f.c) ==> CellLater(s, s', ParentOf(s, f.c));
    if f.CancelLoop? && f.cur.Some? { assert CellLater(s, s', f.cur.value); }
  }

  lemma {:induction false} StackGrows(tree: seq<Node>, tree': seq<Node>, st: seq<Frame>)
    requires tree <= tree' && StackOk(tree, st)
    ensures StackOk(tree', st) && Held(tree', st) == Held(tree, st)
    decreases |st|
  {
    if st != [] { StackGrows(tree, tree', Rest(st)); }
  }

  /** A stack another goroutine did not touch stays in order if no context it is
      looping over was settled meanwhile. */
  lemma StackLater(s: State, s': State, st: seq<Frame>)
    requires Later(s, s') && StackInv(s, st)
    requires forall c | c in Held(s.tree, st) && IsCtx(s, c) && s.cells[c].phase.Looping? :: IsCtx(s', c) && s'.cells[c].phase.Looping?
    ensures StackInv(s', st) && Held(s'.tree, st) == Held(s.tree, st)
  {
    hide TopOk, StackOk;
    StackGrows(s.tree, s'.tree, st);
    if st != [] { TopLater(s, s', Top(st)); }
    forall k | 0 <= k < |st|
      ensures PhaseOk(s', st[k])
    {
      HeldAt(s.tree, st, k);
      assert PhaseOk(s, st[k]);
      if st[k].PropHold? { assert CellLater(s, s', ParentOf(s, st[k].c)); }
    }
  }

  lemma {:induction false} HeldAt(tree: seq<Node>, st: seq<Frame>, k: nat)
    requires k < |st|
    ensures HeldBy(tree, st[k]) <= Held(tree, st)
    decreases |st|
  {
    if k < |st| - 1 { HeldAt(tree, Rest(st), k); }
  }

  /** The part of the invariant that does not look at stacks. */
  ghost predicate Calm(s: State) {
    && |s.tree| == |s.cells| && TreeOk(s.tree)
    && (forall c | 0 <= c < |s.cells| :: CellOk(s, c))
    && ChanInv(s)
  }

  // ----- edits of one context -----

  /** An edit that leaves errors and channels alone. */
  lemma PlainEdit(s: State, s': State, p: nat)
    requires Calm(s) && p < |s.cells|
    requires s'.tree == s.tree && s'.closings == s.closings
    requires |s'.cells| == |s.cells| && s'.cells == s.cells[p := s'.cells[p]]
    requires var x, y := s.cells[p], s'.cells[p];
      && y.err == x.err && y.done == x.done
      && (x.finished ==> y.finished) && (y.finished ==> Attached(s, p))
      && (x.phase.Active? <==> y.phase.Active?) && (y.phase.Looping? ==> y.lock.Some?)
      && (x.phase.Settled? ==> y.phase.Settled?)
      && KnownChildren(s.tree, p, y)
    requires forall d | 0 <= d < |s.cells| && Attached(s, d) :: Attached(s', d)
    ensures Calm(s') && Later(s, s')
  {
    hide Attached;
    forall c | 0 <= c < |s.cells|
      ensures CellOk(s', c) && CellLater(s, s', c)
    {
      assert CellOk(s, c);
    }
  }

  /** p.Done() makes a channel of its own if p has none (lines 395-408). */
  lemma DoneEdit(s: State, p: nat)
    requires Calm(s) && p < |s.cells|
    ensures var d := DoneOf(s, p); var s' := d.0;
      && Calm(s') && Later(s, s')
      && p < |s'.cells| && s'.cells[p].done == Some(d.1)
      && s'.threads == s.threads && s'.tree == s.tree && |s'.cells| == |s.cells|
      && (s.cells[p].done.None? ==> s'.cells[p] == s.cells[p].(done := Some(d.1)))
      && (forall c | 0 <= c < |s.cells| && (c != p || s.cells[p].done.Some?) :: s'.cells[c] == s.cells[c])
  {
    hide CellOk, ChanInv, CellLater;
    var s' := DoneOf(s, p).0;
    DoneChannels(s, p);
    forall c | 0 <= c < |s.cells|
      ensures CellOk(s', c) && CellLater(s, s', c)
    {
      DoneCell(s, p, c);
    }
  }

  lemma DoneCell(s: State, p: nat, c: nat)
    requires Calm(s) && p < |s.cells| && c < |s.cells|
    ensures var s' := DoneOf(s, p).0; IsCtx(s', c) && CellOk(s', c) && CellLater(s, s', c)
  {
    assert |s.closings| > 0;
    hide ChanInv, Attached;
    var s' := DoneOf(s, p).0;
    assert CellOk(s, p) && CellOk(s, c);
    SameAttachment(s, s', c);
  }

  /** Attachment depends on phases and children only. */
  lemma SameAttachment(s: State, s': State, c: nat)
    requires s'.tree == s.tree && |s'.cells| == |s.cells|
    requires forall d | 0 <= d < |s.cells| :: s'.cells[d].phase == s.cells[d].phase && s'.cells[d].children == s.cells[d].children
    ensures Attached(s', c) == Attached(s, c)
  {
  }

  lemma DoneChannels(s: State, p: nat)
    requires Calm(s) && p < |s.cells|
    ensures ChanInv(DoneOf(s, p).0)
  {
    hide Attached;
    forall c | 0 <= c < |s.cells| && s.cells[c].done.Some?
      ensures s.cells[c].done.value < |s.closings|
    {
      assert CellOk(s, c);
    }
  }

  /** Cancelling closes the channel exactly once (lines 443-449). */
  lemma MarkEdit(s: State, c: nat, i: nat, err: Error)
    requires Calm(s) && c < |s.cells| && s.cells[c].err.None?
    ensures var s' := MarkCancelled(s, c, i, err);
      && Calm(s') && Later(s, s')
      && s'.threads == s.threads && s'.tree == s.tree && |s'.cells| == |s.cells|
      && s'.cells[c].lock == Some(i) && s'.cells[c].phase.Looping?
      && (forall d | 0 <= d < |s.cells| && d != c :: s'.cells[d] == s.cells[d])
  {
    hide CellOk, ChanInv, CellLater;
    var s' := MarkCancelled(s, c, i, err);
    MarkChannels(s, c, i, err);
    forall d | 0 <= d < |s.cells|
      ensures CellOk(s', d) && CellLater(s, s', d)
    {
      MarkCell(s, c, i, err, d);
    }
  }

  lemma MarkChannels(s: State, c: nat, i: nat, err: Error)
    requires Calm(s) && c < |s.cells| && s.cells[c].err.None?
    ensures var s' := MarkCancelled(s, c, i, err);
      && ChanInv(s') && |s'.closings| == |s.closings|
      && (forall ch | 0 <= ch < |s.closings| :: s.closings[ch] <= s'.closings[ch])
  {
    hide Attached;
    assert CellOk(s, c);
  }

  lemma MarkCell(s: State, c: nat, i: nat, err: Error, d: nat)
    requires Calm(s) && c < |s.cells| && s.cells[c].err.None? && d < |s.cells|
    ensures var s' := MarkCancelled(s, c, i, err); IsCtx(s', d) && CellOk(s', d) && CellLater(s, s', d)
  {
    hide Attached, ChanInv, CellOk;
    var s' := MarkCancelled(s, c, i, err);
    MarkAttached(s, c, i, err, d);
    if d == c {
      MarkSelf(s, c, i, err);
    } else {
      MarkOther(s, c, i, err, d);
    }
  }

  lemma MarkSelf(s: State, c: nat, i: nat, err: Error)
    requires Calm(s) && c < |s.cells| && s.cells[c].err.None?
    requires Attached(s, c) ==> Attached(MarkCancelled(s, c, i, err), c)
    ensures CellOk(MarkCancelled(s, c, i, err), c) && !s.cells[c].phase.Settled?
  {
    hide Attached;
    assert CellOk(s, c);
  }

  lemma MarkOther(s: State, c: nat, i: nat, err: Error, d: nat)
    requires Calm(s) && c < |s.cells| && s.cells[c].err.None? && d < |s.cells| && d != c
    requires Attached(s, d) ==> Attached(MarkCancelled(s, c, i, err), d)
    ensures CellOk(MarkCancelled(s, c, i, err), d)
  {
    hide Attached;
    assert CellOk(s, c) && CellOk(s, d);
    assert s.cells[d].done.Some? ==> s.cells[d].done.value == CLOSED_CHAN || s.cells[d].done != s.cells[c].done;
    hide ChanInv;
  }

  /** The children of the moment become the work of the loop. */
  lemma MarkAttached(s: State, c: nat, i: nat, err: Error, d: nat)
    requires Calm(s) && c < |s.cells| && s.cells[c].err.None?
    ensures Attached(s, d) ==> Attached(MarkCancelled(s, c, i, err), d)
  {
    hide ChanInv;
    assert CellOk(s, c);
  }

  // ----- putting a step together -----

  /** How the locks may change in a step of goroutine i. */
  ghost predicate LockChange(s: State, s': State, i: nat, c: nat)
    requires i < |s.threads| && i < |s'.threads| && c < |s'.cells|
  {
    var before, after := Held(s.tree, s.threads[i]), Held(s'.tree, s'.threads[i]);
    if c >= |s.cells| then s'.cells[c].lock.None? && c !in after
    else
      || (s'.cells[c].lock == s.cells[c].lock && (c in after <==> c in before))
      || (s.cells[c].lock.None? && s'.cells[c].lock == Some(i) && c in after)
      || (s.cells[c].lock == Some(i) && s'.cells[c].lock.None? && c !in after)
  }

  lemma Combine(s: State, s': State, i: nat)
    requires Inv(s) && Calm(s') && Later(s, s') && i < |s.threads|
    requires |s'.threads| == |s.threads| && s'.threads == s.threads[i := s'.threads[i]]
    requires StackInv(s', s'.threads[i])
    requires forall c | 0 <= c < |s'.cells| :: LockChange(s, s', i, c)
    requires forall c | c in Held(s'.tree, s'.threads[i]) :: c < |s'.cells|
    requires forall c | 0 <= c < |s.cells| && s.cells[c].phase.Looping? && !s'.cells[c].phase.Looping? :: s.cells[c].lock == Some(i)
    ensures Inv(s')
  {
    hide StackOk, TopOk, PhaseOk, CellOk, CellLater, ChanInv, Held;
    forall j | 0 <= j < |s.threads| && j != i
      ensures StackInv(s', s'.threads[j]) && Held(s'.tree, s'.threads[j]) == Held(s.tree, s.threads[j])
    {
      StackLater(s, s', s.threads[j]);
    }
    forall j, c | 0 <= j < |s'.threads| && c in Held(s'.tree, s'.threads[j])
      ensures IsCtx(s', c) && s'.cells[c].lock == Some(j)
    {
      if j != i {
        assert c in Held(s.tree, s.threads[j]);
        assert s.cells[c].lock == Some(j);
      }
      assert LockChange(s, s', i, c);
    }
    forall c | 0 <= c < |s'.cells| && s'.cells[c].lock.Some?
      ensures s'.cells[c].lock.value < |s'.threads| && c in Held(s'.tree, s'.threads[s'.cells[c].lock.value])
    {
      assert LockChange(s, s', i, c);
    }
  }

  // ----- building the new stack -----

  /** What the stack below the top frame says in the next state. */
  ghost predicate RestOk(s: State, rest: seq<Frame>) {
    StackOk(s.tree, rest) && (forall k | 0 <= k < |rest| :: PhaseOk(s, rest[k]))
  }

  lemma RestLater(s: State, s': State, i: nat)
    requires Inv(s) && Later(s, s') && Busy(s, i)
    requires forall c | c in Held(s.tree, Rest(s.threads[i])) && IsCtx(s, c) && s.cells[c].phase.Looping? ::
      IsCtx(s', c) && s'.cells[c].phase.Looping?
    ensures RestOk(s', Rest(s.threads[i])) && Held(s'.tree, Rest(s.threads[i])) == Held(s.tree, Rest(s.threads[i]))
  {
    hide TopOk, Calm, CellOk, ChanInv, LockInv;
    var st := s.threads[i];
    var rest := Rest(st);
    assert StackInv(s, st);
    StackGrows(s.tree, s'.tree, rest);
    forall k | 0 <= k < |rest|
      ensures PhaseOk(s', rest[k])
    {
      HeldAt(s.tree, rest, k);
      assert PhaseOk(s, st[k]);
      if rest[k].PropHold? { assert CellLater(s, s', ParentOf(s, rest[k].c)); }
    }
  }

  /** The top frame is replaced. */
  lemma Swap(s: State, rest: seq<Frame>, f: Frame)
    requires RestOk(s, rest) && FrameOk(s.tree, f) && TopOk(s, f) && PhaseOk(s, f)
    requires rest != [] ==> Above(Top(rest), f)
    requires IsRemove(f) ==> |rest| <= 1
    ensures StackInv(s, rest + [f]) && Held(s.tree, rest + [f]) == Held(s.tree, rest) + HeldBy(s.tree, f)
  {
    hide StackOk, TopOk, PhaseOk;
    PushFrame(s.tree, rest, f);
    SnocStack(rest, f);
    HeldSnoc(s.tree, rest, f);
  }

  /** A cancel call is put on top. */
  lemma SwapCancel(s: State, rest: seq<Frame>, c: nat, remove: bool, err: Error)
    requires RestOk(s, rest) && IsNode(s.tree, c)
    requires rest != [] ==> !remove && (Top(rest).PropHold? || Top(rest).PropEnd? || Top(rest).CancelLoop?) && Above(Top(rest), CancelEnter(c, false, err))
    ensures var st := rest + CancelFrames(s.tree[c].timed, c, remove, err);
      StackInv(s, st) && Held(s.tree, st) == Held(s.tree, rest)
  {
    hide StackOk, TopOk, PhaseOk;
    PushCancel(s.tree, rest, c, remove, err);
    var st := rest + CancelFrames(s.tree[c].timed, c, remove, err);
    forall k | 0 <= k < |st|
      ensures PhaseOk(s, st[k])
    {
      if k >= |rest| { NoPhase(s, st[k]); }
    }
    TopOfCancel(s, Top(st));
  }

  lemma NoPhase(s: State, f: Frame)
    requires !f.CancelLoop? && !f.PropHold?
    ensures PhaseOk(s, f)
  {
  }

  lemma TopOfCancel(s: State, f: Frame)
    requires f.CancelEnter? || f.DoneCall? || f.PropDone? || f.PropLock? || f.TimerArm?
    ensures TopOk(s, f)
  {
  }

  /** The top frame is removed: what is below it waits for its context to be
      cancelled. */
  lemma Pop(s: State, rest: seq<Frame>, f: Frame)
    requires RestOk(s, rest)
    requires rest != [] ==> Above(Top(rest), f) && SettledAt(s, f.c)
    ensures StackInv(s, rest)
  {
  }

  lemma TopFacts(s: State, i: nat)
    requires Inv(s) && Busy(s, i)
    ensures var st := s.threads[i];
      && FrameOk(s.tree, Top(st)) && IsCtx(s, Top(st).c)
      && (Rest(st) != [] ==> Above(Top(Rest(st)), Top(st)))
      && (IsRemove(Top(st)) ==> |Rest(st)| <= 1)
      && TopOk(s, Top(st)) && PhaseOk(s, Top(st))
      && Held(s.tree, st) == Held(s.tree, Rest(st)) + HeldBy(s.tree, Top(st))
      && Calm(s)
  {
    hide TopOk, CellOk, ChanInv, LockInv, FrameOk, Above, Calm;
    assert StackInv(s, s.threads[i]);
    assert FrameOk(s.tree, Top(s.threads[i]));
    FrameNode(s.tree, Top(s.threads[i]));
    InvCalm(s);
  }

  lemma FrameNode(tree: seq<Node>, f: Frame)
    requires FrameOk(tree, f)
    ensures IsNode(tree, f.c)
  {
  }

  lemma InvCalm(s: State)
    requires Inv(s)
    ensures Calm(s)
  {
    hide CellOk, ChanInv, LockInv, StackInv;
  }

  lemma LaterSelf(s: State)
    requires |s.tree| == |s.cells|
    ensures Later(s, s)
  {
  }

  // ----- steps that change no context -----

  lemma StackOnly(s: State, i: nat, st: seq<Frame>)
    requires Inv(s) && i < |s.threads| && StackInv(s, st) && Held(s.tree, st) == Held(s.tree, s.threads[i])
    ensures Inv(SetStack(s, i, st))
  {
    hide CellOk, ChanInv, StackOk, TopOk, PhaseOk, CellLater, Held;
    var s' := SetStack(s, i, st);
    SameContexts(s, s');
    SameStackInv(s, s', st);
    assert forall c | c in Held(s.tree, s.threads[i]) :: IsCtx(s, c);
    Combine(s, s', i);
  }

  lemma SameContexts(s: State, s': State)
    requires Inv(s) && s'.tree == s.tree && s'.cells == s.cells && s'.closings == s.closings
    ensures Calm(s') && Later(s, s')
  {
    hide LockInv, StackInv, Attached;
    forall c | 0 <= c < |s.cells|
      ensures CellOk(s', c) && CellLater(s, s', c)
    {
      assert CellOk(s, c);
      SameAttachment(s, s', c);
      if HasParent(s, c) { SameAttachment(s, s', ParentOf(s, c)); }
    }
  }

  lemma SameStackInv(s: State, s': State, st: seq<Frame>)
    requires StackInv(s, st) && s'.tree == s.tree && s'.cells == s.cells && s'.closings == s.closings
    ensures StackInv(s', st)
  {
    hide StackOk;
    forall k | 0 <= k < |st|
      ensures PhaseOk(s', st[k])
    {
      assert PhaseOk(s, st[k]);
    }
  }

  // ----- steps that change one context -----

  /** The contexts of s1 with a new stack for goroutine i. */
  lemma ChangeAndStack(s: State, s1: State, i: nat, st: seq<Frame>)
    requires Inv(s) && Calm(s1) && Later(s, s1) && i < |s.threads| && s1.threads == s.threads
    requires StackInv(s1, st)
    requires forall c | 0 <= c < |s1.cells| :: LockChange(s, SetStack(s1, i, st), i, c)
    requires forall c | c in Held(s1.tree, st) :: c < |s1.cells|
    requires forall c | 0 <= c < |s.cells| && s.cells[c].phase.Looping? && !s1.cells[c].phase.Looping? :: s.cells[c].lock == Some(i)
    ensures Inv(SetStack(s1, i, st))
  {
    hide CellOk, ChanInv, StackOk, TopOk, PhaseOk, CellLater, Held, LockChange, LockInv, StackInv;
    var s' := SetStack(s1, i, st);
    CalmThreads(s, s1, s');
    SameStackInv(s1, s', st);
    Combine(s, s', i);
  }

  lemma CalmThreads(s: State, s1: State, s': State)
    requires Calm(s1) && Later(s, s1) && s'.tree == s1.tree && s'.cells == s1.cells && s'.closings == s1.closings
    ensures Calm(s') && Later(s, s')
  {
    hide Attached;
    forall c | 0 <= c < |s1.cells|
      ensures CellOk(s', c)
    {
      assert CellOk(s1, c);
      SameAttachment(s1, s', c);
    }
    forall c | 0 <= c < |s.cells|
      ensures CellLater(s, s', c)
    {
      assert CellLater(s, s1, c);
      SameAttachment(s1, s', c);
    }
  }

  /** A step that keeps all locks. */
  lemma KeepLocks(s: State, s1: State, i: nat, st: seq<Frame>)
    requires Inv(s) && Calm(s1) && Later(s, s1) && i < |s.threads| && s1.threads == s.threads
    requires StackInv(s1, st) && Held(s1.tree, st) == Held(s.tree, s.threads[i]) && |s1.cells| == |s.cells|
    requires forall c | 0 <= c < |s.cells| :: s1.cells[c].lock == s.cells[c].lock && (s.cells[c].phase.Looping? ==> s1.cells[c].phase.Looping?)
    ensures Inv(SetStack(s1, i, st))
  {
    hide CellOk, ChanInv, StackOk, TopOk, PhaseOk, CellLater, Held, StackInv;
    assert forall c | c in Held(s.tree, s.threads[i]) :: IsCtx(s, c);
    ChangeAndStack(s, s1, i, st);
  }

  // ----- the steps of propagateCancel -----

  lemma GoSelect(s: State, i: nat, child: nat, expired: bool)
    requires Inv(s) && Enabled(s, Go(i, child, expired)) && Top(s.threads[i]).PropSelect?
    ensures Inv(ApplyGo(s, i, child, expired))
  {
    hide CellOk, ChanInv, LockInv, StackOk, Held, Attached;
    TopFacts(s, i);
    LaterSelf(s);
    RestLater(s, s, i);
    var f, rest := Top(s.threads[i]), Rest(s.threads[i]);
    var f' := if IsClosed(s, f.ch) then PropErr(f.c, f.ch) else PropFind(f.c, f.ch, false);
    NotClosedChan(s);
    Swap(s, rest, f');
    StackOnly(s, i, rest + [f']);
  }

  lemma NotClosedChan(s: State)
    requires Inv(s)
    ensures IsClosed(s, CLOSED_CHAN)
  {
  }

  /** A parent whose channel is closed has an error. */
  lemma ClosedHasErr(s: State, p: nat)
    requires Inv(s) && IsCtx(s, p) && s.cells[p].done.Some? && IsClosed(s, s.cells[p].done.value)
    ensures s.cells[p].err.Some?
  {
    hide Attached;
    assert CellOk(s, p);
  }

  lemma GoErr(s: State, i: nat, child: nat, expired: bool)
    requires Inv(s) && Enabled(s, Go(i, child, expired)) && Top(s.threads[i]).PropErr?
    ensures Inv(ApplyGo(s, i, child, expired))
    ensures HasParent(s, Top(s.threads[i]).c) && s.cells[ParentOf(s, Top(s.threads[i]).c)].err.Some?
  {
    hide CellOk, ChanInv, LockInv, StackOk, Held, Attached;
    TopFacts(s, i);
    LaterSelf(s);
    RestLater(s, s, i);
    var f, rest := Top(s.threads[i]), Rest(s.threads[i]);
    ClosedHasErr(s, ParentOf(s, f.c));
    BottomOnly(s, i);
    CancelOnEnd(s, i, PropEnd(f.c), f.c, s.cells[ParentOf(s, f.c)].err.value);
  }

  /** Frames of propagateCancel stand at the bottom. */
  lemma BottomOnly(s: State, i: nat)
    requires Inv(s) && Busy(s, i)
    ensures var f := Top(s.threads[i]);
      !f.TimerStop? && !f.CancelEnter? && !f.CancelLoop? && !IsRemove(f) ==> Rest(s.threads[i]) == []
  {
    hide CellOk, ChanInv, LockInv, StackOk;
    TopFacts(s, i);
  }

  /** PropEnd(c) or PropHold(c) with a cancel call of c on top, at the bottom. */
  lemma SubCancel(s: State, g: Frame, c: nat, err: Error)
    requires FrameOk(s.tree, g) && PhaseOk(s, g) && g.c == c && (g.PropEnd? || g.PropHold?)
    ensures var st := [g] + CancelFrames(s.tree[c].timed, c, false, err);
      StackInv(s, st) && Held(s.tree, st) == HeldBy(s.tree, g)
  {
    hide PhaseOk;
    assert RestOk(s, []);
    PushFrame(s.tree, [], g);
    SnocStack([], g);
    HeldSnoc(s.tree, [], g);
    assert [] + [g] == [g];
    assert RestOk(s, [g]);
    hide StackOk, Held;
    SwapCancel(s, [g], c, false, err);
  }

  lemma CancelOnEnd(s: State, i: nat, g: Frame, c: nat, err: Error)
    requires Inv(s) && Busy(s, i) && Rest(s.threads[i]) == [] && HeldBy(s.tree, Top(s.threads[i])) == {}
    requires g == PropEnd(c) && IsNode(s.tree, c)
    ensures Inv(SetStack(s, i, Rest(s.threads[i]) + [g] + CancelFrames(s.tree[c].timed, c, false, err)))
  {
    hide CellOk, ChanInv, LockInv, StackInv, PhaseOk, Held, CancelFrames;
    TopFacts(s, i);
    HeldNothing(s.tree);
    NoPhase(s, g);
    SubCancel(s, g, c, err);
    assert Rest(s.threads[i]) + [g] == [g];
    StackOnly(s, i, [g] + CancelFrames(s.tree[c].timed, c, false, err));
  }

  /** The state after p.Done() and what it leaves of the stack. */
  lemma AfterDone(s: State, i: nat, p: nat)
    requires Inv(s) && Busy(s, i) && p < |s.cells|
    ensures var d := DoneOf(s, p); var s1 := d.0;
      && Calm(s1) && Later(s, s1) && s1.threads == s.threads && s1.tree == s.tree && |s1.cells| == |s.cells|
      && s1.cells[p].done == Some(d.1)
      && RestOk(s1, Rest(s.threads[i])) && Held(s1.tree, Rest(s.threads[i])) == Held(s.tree, Rest(s.threads[i]))
      && (forall c | 0 <= c < |s.cells| :: s1.cells[c].lock == s.cells[c].lock && s1.cells[c].phase == s.cells[c].phase)
  {
    hide CellOk, ChanInv, LockInv, StackInv, Later, Calm, RestOk, Held;
    InvCalm(s);
    DoneEdit(s, p);
    RestLater(s, DoneOf(s, p).0, i);
  }

  /** Done has found no channel: only the frame changes. */
  lemma LookAgain(s: State, i: nat)
    requires Inv(s) && Busy(s, i)
    requires var f := Top(s.threads[i]); f.PropDone? || f.PropFind? || f.RemoveFind? || f.DoneCall?
    ensures Inv(SetStack(s, i, Rest(s.threads[i]) + [Waiting(Top(s.threads[i]))]))
  {
    hide CellOk, ChanInv, LockInv, StackOk, Held, Attached;
    TopFacts(s, i);
    LaterSelf(s);
    RestLater(s, s, i);
    var f, rest := Waiting(Top(s.threads[i])), Rest(s.threads[i]);
    Swap(s, rest, f);
    StackOnly(s, i, rest + [f]);
  }

  lemma GoDone(s: State, i: nat, child: nat, expired: bool)
    requires Inv(s) && Enabled(s, Go(i, child, expired)) && Top(s.threads[i]).PropDone?
    ensures Inv(ApplyGo(s, i, child, expired))
  {
    hide CellOk, ChanInv, LockInv, StackOk, Held, Calm, Later;
    TopFacts(s, i);
    BottomOnly(s, i);
    var c, rest := Top(s.threads[i]).c, Rest(s.threads[i]);
    ParentIsCtx(s, c);
    if !HasParent(s, c) {
      LaterSelf(s);
      RestLater(s, s, i);
      Swap(s, rest, PropEnd(c));
      StackOnly(s, i, rest + [PropEnd(c)]);
    } else if MustWait(s, ParentOf(s, c), Top(s.threads[i]).wait) {
      LookAgain(s, i);
    } else {
      var d := DoneOf(s, ParentOf(s, c));
      AfterDone(s, i, ParentOf(s, c));
      Swap(d.0, rest, PropSelect(c, d.1));
      KeepLocks(s, d.0, i, rest + [PropSelect(c, d.1)]);
    }
  }

  lemma ParentIsCtx(s: State, c: nat)
    requires Inv(s) && IsCtx(s, c)
    ensures !HasParent(s, c) ==> s.tree[c].parent.None?
    ensures HasParent(s, c) ==> s.cells[ParentOf(s, c)].finished && ParentOf(s, c) < c
  {
    hide Attached;
    assert CellOk(s, c);
  }

  /** Line 336 lets a parent of this package pass: its channel is its own. */
  lemma GoFind(s: State, i: nat, child: nat, expired: bool)
    requires Inv(s) && Enabled(s, Go(i, child, expired)) && Top(s.threads[i]).PropFind?
    ensures Inv(ApplyGo(s, i, child, expired))
  {
    hide CellOk, ChanInv, LockInv, StackOk, Held, Calm, Later;
    TopFacts(s, i);
    BottomOnly(s, i);
    var f, rest := Top(s.threads[i]), Rest(s.threads[i]);
    var c := f.c;
    if MustWait(s, ParentOf(s, c), f.wait) {
      LookAgain(s, i);
    } else {
      var d := DoneOf(s, ParentOf(s, c));
      AfterDone(s, i, ParentOf(s, c));
      Swap(d.0, rest, PropCheck(c, d.1));
      KeepLocks(s, d.0, i, rest + [PropCheck(c, d.1)]);
    }
  }

  lemma GoCheck(s: State, i: nat, child: nat, expired: bool)
    requires Inv(s) && Enabled(s, Go(i, child, expired)) && Top(s.threads[i]).PropCheck?
    ensures Inv(ApplyGo(s, i, child, expired))
  {
    hide CellOk, ChanInv, LockInv, StackOk, Held, Attached;
    TopFacts(s, i);
    LaterSelf(s);
    RestLater(s, s, i);
    var f, rest := Top(s.threads[i]), Rest(s.threads[i]);
    Swap(s, rest, PropLock(f.c));
    StackOnly(s, i, rest + [PropLock(f.c)]);
  }

  /** A context whose lock is free is either untouched or completely cancelled. */
  lemma FreeMeansSettled(s: State, p: nat)
    requires Inv(s) && IsCtx(s, p) && s.cells[p].lock.None?
    ensures s.cells[p].err.Some? ==> s.cells[p].phase.Settled?
    ensures s.cells[p].err.None? ==> s.cells[p].phase.Active?
  {
    hide Attached;
    assert CellOk(s, p);
  }

  lemma ParentFree(s: State, i: nat)
    requires Inv(s) && Enabled(s, Go(i, 0, false)) && Top(s.threads[i]).PropLock?
    ensures HasParent(s, Top(s.threads[i]).c) && s.cells[ParentOf(s, Top(s.threads[i]).c)].lock.None?
  {
    TopFacts(s, i);
    ParentIsCtx(s, Top(s.threads[i]).c);
  }

  /** Line 310: registering with a live parent. */
  lemma AddChild(s: State, c: nat, p: nat)
    requires Calm(s) && HasParent(s, c) && ParentOf(s, c) == p && s.cells[p].phase.Active?
    ensures var s1 := SetCell(s, p, s.cells[p].(children := s.cells[p].children + {c}));
      Calm(s1) && Later(s, s1) && Attached(s1, c)
  {
    hide CellOk, ChanInv;
    var s1 := SetCell(s, p, s.cells[p].(children := s.cells[p].children + {c}));
    CellFacts(s, p);
    PlainEdit(s, s1, p);
  }

  lemma CellFacts(s: State, p: nat)
    requires IsCtx(s, p) && CellOk(s, p)
    ensures s.cells[p].finished ==> Attached(s, p)
    ensures s.cells[p].err.None? <==> s.cells[p].phase.Active?
    ensures s.cells[p].phase.Looping? ==> s.cells[p].lock.Some?
    ensures KnownChildren(s.tree, p, s.cells[p])
  {
    hide Attached;
  }

  lemma GoLock(s: State, i: nat, child: nat, expired: bool)
    requires Inv(s) && Enabled(s, Go(i, child, expired)) && Top(s.threads[i]).PropLock?
    ensures Inv(ApplyGo(s, i, child, expired))
  {
    hide CellOk, ChanInv, LockInv, StackOk, Held, Calm, Later, Attached, StackInv, RestOk;
    TopFacts(s, i);
    BottomOnly(s, i);
    ParentFree(s, i);
    var c := Top(s.threads[i]).c;
    var p := ParentOf(s, c);
    FreeMeansSettled(s, p);
    if s.cells[p].err.None? {
      GoLockAdd(s, i, c, p);
    } else {
      GoLockHold(s, i, c, p);
    }
  }

  lemma GoLockAdd(s: State, i: nat, c: nat, p: nat)
    requires Inv(s) && Busy(s, i) && Top(s.threads[i]) == PropLock(c) && Rest(s.threads[i]) == []
    requires HasParent(s, c) && ParentOf(s, c) == p && s.cells[p].phase.Active? && IsCtx(s, c)
    ensures Inv(SetStack(SetCell(s, p, s.cells[p].(children := s.cells[p].children + {c})), i, Rest(s.threads[i]) + [PropEnd(c)]))
  {
    hide CellOk, ChanInv, LockInv, StackOk, Held, Calm, Later, Attached;
    TopFacts(s, i);
    var s1 := SetCell(s, p, s.cells[p].(children := s.cells[p].children + {c}));
    AddChild(s, c, p);
    RestLater(s, s1, i);
    Swap(s1, Rest(s.threads[i]), PropEnd(c));
    KeepLocks(s, s1, i, Rest(s.threads[i]) + [PropEnd(c)]);
  }

  /** Taking and giving back the lock changes nothing else. */
  lemma LockEdit(s: State, p: nat, lock: Option<nat>)
    requires Calm(s) && IsCtx(s, p) && !s.cells[p].phase.Looping?
    ensures var s1 := SetCell(s, p, s.cells[p].(lock := lock)); Calm(s1) && Later(s, s1)
  {
    var s1 := SetCell(s, p, s.cells[p].(lock := lock));
    CellFacts(s, p);
    forall d | 0 <= d < |s.cells|
      ensures Attached(s1, d) == Attached(s, d)
    {
      SameAttachment(s, s1, d);
    }
    hide CellOk, ChanInv, Attached;
    PlainEdit(s, s1, p);
  }

  lemma GoLockHold(s: State, i: nat, c: nat, p: nat)
    requires Inv(s) && Busy(s, i) && Top(s.threads[i]) == PropLock(c) && Rest(s.threads[i]) == []
    requires HasParent(s, c) && ParentOf(s, c) == p && s.cells[p].phase.Settled? && s.cells[p].lock.None? && IsCtx(s, c)
    requires s.cells[p].err.Some?
    ensures Inv(SetStack(SetCell(s, p, s.cells[p].(lock := Some(i))), i,
      Rest(s.threads[i]) + [PropHold(c)] + CancelFrames(s.tree[c].timed, c, false, s.cells[p].err.value)))
  {
    hide CellOk, ChanInv, LockInv, Calm, Later, Attached;
    TopFacts(s, i);
    var err := s.cells[p].err.value;
    var s1 := SetCell(s, p, s.cells[p].(lock := Some(i)));
    LockEdit(s, p, Some(i));
    var st := [PropHold(c)] + CancelFrames(s.tree[c].timed, c, false, err);
    SubCancel(s1, PropHold(c), c, err);
    assert Rest(s.threads[i]) + [PropHold(c)] == [PropHold(c)];
    assert Held(s.tree, s.threads[i]) == {};
    assert Held(s1.tree, st) == {p};
    hide StackInv, StackOk, Held;
    ChangeAndStack(s, s1, i, st);
  }

  lemma GoHold(s: State, i: nat, child: nat, expired: bool)
    requires Inv(s) && Enabled(s, Go(i, child, expired)) && Top(s.threads[i]).PropHold?
    ensures Inv(ApplyGo(s, i, child, expired))
  {
    hide CellOk, ChanInv, Calm, Later, Attached, StackOk, RestOk;
    TopFacts(s, i);
    BottomOnly(s, i);
    var c, rest := Top(s.threads[i]).c, Rest(s.threads[i]);
    var p := ParentOf(s, c);
    assert p in Held(s.tree, s.threads[i]);
    assert s.cells[p].lock == Some(i);
    hide LockInv;
    var s1 := SetCell(s, p, s.cells[p].(lock := None));
    LockEdit(s, p, None);
    RestLater(s, s1, i);
    SettledIsAttached(s1, c);
    Swap(s1, rest, PropEnd(c));
    assert Held(s.tree, s.threads[i]) == {p} && Held(s1.tree, rest + [PropEnd(c)]) == {};
    hide StackInv, Held;
    ChangeAndStack(s, s1, i, rest + [PropEnd(c)]);
  }

  lemma SettledIsAttached(s: State, c: nat)
    requires SettledAt(s, c)
    ensures Attached(s, c)
  {
  }

  /** propagateCancel is over: c is attached to its parent. */
  lemma FinishEdit(s: State, c: nat)
    requires Calm(s) && IsCtx(s, c) && Attached(s, c)
    ensures var s1 := SetCell(s, c, s.cells[c].(finished := true)); Calm(s1) && Later(s, s1)
  {
    var s1 := SetCell(s, c, s.cells[c].(finished := true));
    CellFacts(s, c);
    forall d | 0 <= d < |s.cells|
      ensures Attached(s1, d) == Attached(s, d)
    {
      SameAttachment(s, s1, d);
    }
    hide CellOk, ChanInv, Attached;
    PlainEdit(s, s1, c);
  }

  lemma GoEnd(s: State, i: nat, child: nat, expired: bool)
    requires Inv(s) && Enabled(s, Go(i, child, expired)) && Top(s.threads[i]).PropEnd?
    ensures Inv(ApplyGo(s, i, child, expired))
  {
    hide CellOk, ChanInv, LockInv, StackOk, Held, Calm, Later, Attached;
    TopFacts(s, i);
    BottomOnly(s, i);
    var c, rest := Top(s.threads[i]).c, Rest(s.threads[i]);
    var s1 := SetCell(s, c, s.cells[c].(finished := true));
    FinishEdit(s, c);
    RestLater(s, s1, i);
    assert HeldBy(s.tree, Top(s.threads[i])) == {};
    if !s.tree[c].timed {
      Pop(s1, rest, PropEnd(c));
      KeepLocks(s, s1, i, rest);
    } else if expired {
      SwapCancel(s1, rest, c, true, DeadlineExceeded);
      KeepLocks(s, s1, i, rest + CancelFrames(true, c, true, DeadlineExceeded));
    } else {
      Swap(s1, rest, TimerArm(c));
      KeepLocks(s, s1, i, rest + [TimerArm(c)]);
    }
  }

  lemma TimerEdit(s: State, c: nat, timer: bool)
    requires Calm(s) && IsCtx(s, c)
    ensures var s1 := SetCell(s, c, s.cells[c].(timer := timer)); Calm(s1) && Later(s, s1)
  {
    var s1 := SetCell(s, c, s.cells[c].(timer := timer));
    CellFacts(s, c);
    forall d | 0 <= d < |s.cells|
      ensures Attached(s1, d) == Attached(s, d)
    {
      SameAttachment(s, s1, d);
    }
    hide CellOk, ChanInv, Attached;
    PlainEdit(s, s1, c);
  }

  /** Lines 489-495 and 525-530 */
  lemma GoTimer(s: State, i: nat, child: nat, expired: bool)
    requires Inv(s) && Enabled(s, Go(i, child, expired)) && (Top(s.threads[i]).TimerArm? || Top(s.threads[i]).TimerStop?)
    ensures Inv(ApplyGo(s, i, child, expired))
  {
    hide CellOk, ChanInv, LockInv, StackOk, Held, Calm, Later, Attached;
    TopFacts(s, i);
    BottomOnly(s, i);
    var f, rest := Top(s.threads[i]), Rest(s.threads[i]);
    var timer := if f.TimerArm? then s.cells[f.c].timer || s.cells[f.c].err.None? else false;
    var s1 := SetCell(s, f.c, s.cells[f.c].(timer := timer));
    TimerEdit(s, f.c, timer);
    RestLater(s, s1, i);
    Pop(s1, rest, f);
    KeepLocks(s, s1, i, rest);
  }

  // ----- the steps of cancel -----

  lemma GoEnter(s: State, i: nat, child: nat, expired: bool)
    requires Inv(s) && Enabled(s, Go(i, child, expired)) && Top(s.threads[i]).CancelEnter?
    ensures Inv(ApplyGo(s, i, child, expired))
  {
    hide CellOk, ChanInv, LockInv, StackOk, Held, Calm, Later, Attached;
    TopFacts(s, i);
    var f, rest := Top(s.threads[i]), Rest(s.threads[i]);
    FreeMeansSettled(s, f.c);
    if s.cells[f.c].err.Some? {
      LaterSelf(s);
      RestLater(s, s, i);
      Pop(s, rest, f);
      StackOnly(s, i, rest);
    } else {
      GoEnterFirst(s, i, f, rest);
    }
  }

  lemma GoEnterFirst(s: State, i: nat, f: Frame, rest: seq<Frame>)
    requires Inv(s) && Busy(s, i) && f == Top(s.threads[i]) && rest == Rest(s.threads[i]) && f.CancelEnter?
    requires IsCtx(s, f.c) && s.cells[f.c].lock.None? && s.cells[f.c].err.None?
    ensures Inv(SetStack(MarkCancelled(s, f.c, i, f.err), i, rest + [CancelLoop(f.c, f.remove, f.err, None)]))
  {
    hide CellOk, ChanInv, LockInv, StackOk, Held, Calm, Later, Attached, MarkCancelled;
    TopFacts(s, i);
    var g := CancelLoop(f.c, f.remove, f.err, None);
    var s1 := MarkCancelled(s, f.c, i, f.err);
    MarkEdit(s, f.c, i, f.err);
    RestLater(s, s1, i);
    Swap(s1, rest, g);
    HeldIsLocked(s, i);
    assert Held(s1.tree, rest + [g]) == Held(s.tree, s.threads[i]) + {f.c};
    hide StackInv, RestOk;
    ChangeAndStack(s, s1, i, rest + [g]);
  }

  lemma HeldIsLocked(s: State, i: nat)
    requires Inv(s) && i < |s.threads|
    ensures forall c | c in Held(s.tree, s.threads[i]) :: IsCtx(s, c) && s.cells[c].lock == Some(i)
  {
    hide CellOk, ChanInv, StackInv, Held;
  }

  lemma GoLoop(s: State, i: nat, child: nat, expired: bool)
    requires Inv(s) && Enabled(s, Go(i, child, expired)) && Top(s.threads[i]).CancelLoop?
    ensures Inv(ApplyGo(s, i, child, expired))
  {
    hide CellOk, ChanInv, LockInv, StackOk, Held, Calm, Later, Attached, StackInv, RestOk;
    TopFacts(s, i);
    var f := Top(s.threads[i]);
    assert s.cells[f.c].phase.Looping?;
    if f.cur.Some? {
      GoLoopNext(s, i, f, Rest(s.threads[i]));
    } else if s.cells[f.c].phase.todo == {} {
      GoLoopEnd(s, i, f, Rest(s.threads[i]));
    } else {
      GoLoopChild(s, i, f, Rest(s.threads[i]), child);
    }
  }

  /** A child is ticked off once it is cancelled. */
  lemma TickEdit(s: State, c: nat, d: nat)
    requires Calm(s) && IsCtx(s, c) && s.cells[c].phase.Looping? && SettledAt(s, d)
    ensures var s1 := SetCell(s, c, s.cells[c].(phase := Looping(s.cells[c].phase.todo - {d}))); Calm(s1) && Later(s, s1)
  {
    var s1 := SetCell(s, c, s.cells[c].(phase := Looping(s.cells[c].phase.todo - {d})));
    CellFacts(s, c);
    hide CellOk, ChanInv;
    PlainEdit(s, s1, c);
  }

  lemma GoLoopNext(s: State, i: nat, f: Frame, rest: seq<Frame>)
    requires Inv(s) && Busy(s, i) && f == Top(s.threads[i]) && rest == Rest(s.threads[i])
    requires f.CancelLoop? && f.cur.Some? && IsCtx(s, f.c) && s.cells[f.c].phase.Looping?
    ensures Inv(SetStack(SetCell(s, f.c, s.cells[f.c].(phase := Looping(s.cells[f.c].phase.todo - {f.cur.value}))), i,
      rest + [CancelLoop(f.c, f.remove, f.err, None)]))
  {
    hide CellOk, ChanInv, LockInv, StackOk, Held, Calm, Later, Attached;
    TopFacts(s, i);
    var g := CancelLoop(f.c, f.remove, f.err, None);
    var s1 := SetCell(s, f.c, s.cells[f.c].(phase := Looping(s.cells[f.c].phase.todo - {f.cur.value})));
    TickEdit(s, f.c, f.cur.value);
    RestLater(s, s1, i);
    Swap(s1, rest, g);
    KeepLocks(s, s1, i, rest + [g]);
  }

  lemma SettleEdit(s: State, c: nat)
    requires Calm(s) && IsCtx(s, c) && s.cells[c].phase == Looping({})
    ensures var s1 := SetCell(s, c, s.cells[c].(lock := None, children := {}, phase := Settled));
      Calm(s1) && Later(s, s1) && SettledAt(s1, c)
  {
    var s1 := SetCell(s, c, s.cells[c].(lock := None, children := {}, phase := Settled));
    CellFacts(s, c);
    hide CellOk, ChanInv;
    PlainEdit(s, s1, c);
  }

  lemma GoLoopEnd(s: State, i: nat, f: Frame, rest: seq<Frame>)
    requires Inv(s) && Busy(s, i) && f == Top(s.threads[i]) && rest == Rest(s.threads[i])
    requires f.CancelLoop? && f.cur.None? && IsCtx(s, f.c) && s.cells[f.c].phase == Looping({})
    ensures Inv(SetStack(SetCell(s, f.c, s.cells[f.c].(lock := None, children := {}, phase := Settled)), i,
      if f.remove then rest + [RemoveFind(f.c, false)] else rest))
  {
    hide CellOk, ChanInv, LockInv, StackOk, Held, Calm, Later, Attached;
    TopFacts(s, i);
    HeldIsLocked(s, i);
    var s1 := SetCell(s, f.c, s.cells[f.c].(lock := None, children := {}, phase := Settled));
    SettleEdit(s, f.c);
    NotHeldTwice(s, i);
    RestLater(s, s1, i);
    var st := if f.remove then rest + [RemoveFind(f.c, false)] else rest;
    if f.remove {
      Swap(s1, rest, RemoveFind(f.c, false));
    } else {
      Pop(s1, rest, f);
    }
    assert Held(s1.tree, st) == Held(s.tree, rest);
    hide StackInv, RestOk;
    ChangeAndStack(s, s1, i, st);
  }

  lemma NotHeldTwice(s: State, i: nat)
    requires Inv(s) && Busy(s, i)
    ensures Top(s.threads[i]).c !in Held(s.tree, Rest(s.threads[i]))
  {
    hide CellOk, ChanInv, LockInv, StackOk, Held, Attached;
    assert StackInv(s, s.threads[i]);
    var c := Top(s.threads[i]).c;
    if c in Held(s.tree, Rest(s.threads[i])) {
      HeldAreAncestors(s.tree, s.threads[i], c);
    }
  }

  lemma GoLoopChild(s: State, i: nat, f: Frame, rest: seq<Frame>, d: nat)
    requires Inv(s) && Busy(s, i) && f == Top(s.threads[i]) && rest == Rest(s.threads[i])
    requires f.CancelLoop? && f.cur.None? && IsCtx(s, f.c) && s.cells[f.c].phase.Looping? && d in s.cells[f.c].phase.todo
    ensures Inv(SetStack(s, i, rest + [CancelLoop(f.c, f.remove, f.err, Some(d))]
      + CancelFrames(d < |s.tree| && s.tree[d].timed, d, false, f.err)))
  {
    hide CellOk, ChanInv, LockInv, Held, Calm, Later, Attached;
    TopFacts(s, i);
    CalmCell(s, f.c);
    CellFacts(s, f.c);
    LaterSelf(s);
    RestLater(s, s, i);
    var g := CancelLoop(f.c, f.remove, f.err, Some(d));
    PushFrame(s.tree, rest, g);
    SnocStack(rest, g);
    HeldSnoc(s.tree, rest, g);
    assert RestOk(s, rest + [g]);
    hide StackOk;
    SwapCancel(s, rest + [g], d, false, f.err);
    StackOnly(s, i, rest + [g] + CancelFrames(s.tree[d].timed, d, false, f.err));
  }

  lemma CalmCell(s: State, c: nat)
    requires Calm(s) && IsCtx(s, c)
    ensures CellOk(s, c)
  {
    hide CellOk, ChanInv;
  }

  // ----- the steps of removeChild and Done -----

  lemma GoRemoveFind(s: State, i: nat, child: nat, expired: bool)
    requires Inv(s) && Enabled(s, Go(i, child, expired)) && Top(s.threads[i]).RemoveFind?
    ensures Inv(ApplyGo(s, i, child, expired))
  {
    hide CellOk, ChanInv, LockInv, StackOk, Held, Calm, Attached, Later;
    TopFacts(s, i);
    var f, rest := Top(s.threads[i]), Rest(s.threads[i]);
    ParentIsCtx(s, f.c);
    if !HasParent(s, f.c) {
      LaterSelf(s);
      RestLater(s, s, i);
      Pop(s, rest, f);
      StackOnly(s, i, rest);
    } else if MustWait(s, ParentOf(s, f.c), f.wait) {
      LookAgain(s, i);
    } else {
      var d := DoneOf(s, ParentOf(s, f.c));
      AfterDone(s, i, ParentOf(s, f.c));
      if d.1 == CLOSED_CHAN {
        Pop(d.0, rest, f);
        KeepLocks(s, d.0, i, rest);
      } else {
        Swap(d.0, rest, RemoveCheck(f.c, d.1));
        KeepLocks(s, d.0, i, rest + [RemoveCheck(f.c, d.1)]);
      }
    }
  }

  lemma GoRemoveCheck(s: State, i: nat, child: nat, expired: bool)
    requires Inv(s) && Enabled(s, Go(i, child, expired)) && Top(s.threads[i]).RemoveCheck?
    ensures Inv(ApplyGo(s, i, child, expired))
  {
    hide CellOk, ChanInv, LockInv, StackOk, Held, Attached;
    TopFacts(s, i);
    LaterSelf(s);
    RestLater(s, s, i);
    var f, rest := Top(s.threads[i]), Rest(s.threads[i]);
    if HasParent(s, f.c) && s.cells[ParentOf(s, f.c)].done == Some(f.ch) {
      Swap(s, rest, RemoveLock(f.c));
      StackOnly(s, i, rest + [RemoveLock(f.c)]);
    } else {
      Pop(s, rest, f);
      StackOnly(s, i, rest);
    }
  }

  /** A context that is cancelled may leave its parent. */
  lemma RemoveEdit(s: State, c: nat, p: nat)
    requires Calm(s) && HasParent(s, c) && ParentOf(s, c) == p && SettledAt(s, c)
    ensures var s1 := SetCell(s, p, s.cells[p].(children := s.cells[p].children - {c})); Calm(s1) && Later(s, s1)
  {
    var s1 := SetCell(s, p, s.cells[p].(children := s.cells[p].children - {c}));
    CellFacts(s, p);
    hide CellOk, ChanInv;
    PlainEdit(s, s1, p);
  }

  lemma GoRemoveLock(s: State, i: nat, child: nat, expired: bool)
    requires Inv(s) && Enabled(s, Go(i, child, expired)) && Top(s.threads[i]).RemoveLock?
    ensures Inv(ApplyGo(s, i, child, expired))
  {
    hide CellOk, ChanInv, LockInv, StackOk, Held, Calm, Later, Attached;
    TopFacts(s, i);
    var f, rest := Top(s.threads[i]), Rest(s.threads[i]);
    ParentIsCtx(s, f.c);
    var p := ParentOf(s, f.c);
    var s1 := SetCell(s, p, s.cells[p].(children := s.cells[p].children - {f.c}));
    RemoveEdit(s, f.c, p);
    RestLater(s, s1, i);
    Pop(s1, rest, f);
    KeepLocks(s, s1, i, rest);
  }

  lemma GoDoneCall(s: State, i: nat, child: nat, expired: bool)
    requires Inv(s) && Enabled(s, Go(i, child, expired)) && Top(s.threads[i]).DoneCall?
    ensures Inv(ApplyGo(s, i, child, expired))
  {
    hide CellOk, ChanInv, LockInv, StackOk, Held, Calm, Later, Attached;
    TopFacts(s, i);
    BottomOnly(s, i);
    var f, rest := Top(s.threads[i]), Rest(s.threads[i]);
    if MustWait(s, f.c, f.wait) {
      LookAgain(s, i);
    } else {
      AfterDone(s, i, f.c);
      Pop(DoneOf(s, f.c).0, rest, f);
      KeepLocks(s, DoneOf(s, f.c).0, i, rest);
    }
  }

  // ----- calls -----

  /** A new context joins the tree. */
  lemma GrowEdit(s: State, parent: Option<nat>, timed: bool)
    requires Calm(s) && (parent.Some? ==> IsCtx(s, parent.value) && s.cells[parent.value].finished)
    ensures var s1 := s.(tree := s.tree + [Node(parent, timed)], cells := s.cells + [Cell(None, None, {}, None, false, Active, false)]);
      Calm(s1) && Later(s, s1)
  {
    var s1 := s.(tree := s.tree + [Node(parent, timed)], cells := s.cells + [Cell(None, None, {}, None, false, Active, false)]);
    forall c | 0 <= c < |s.cells|
      ensures CellOk(s1, c) && CellLater(s, s1, c)
    {
      assert CellOk(s, c);
      GrowAttached(s, s1, c);
    }
    hide Attached;
    assert CellOk(s1, |s.cells|);
  }

  lemma GrowAttached(s: State, s1: State, c: nat)
    requires |s.tree| == |s.cells| && c < |s.tree|
    requires s.tree <= s1.tree && s.cells <= s1.cells && (s.tree[c].parent.Some? ==> HasParent(s, c))
    ensures Attached(s1, c) == Attached(s, c)
  {
  }

  lemma GoNew(s: State, i: nat, parent: Option<nat>, timed: bool)
    requires Inv(s) && Enabled(s, NewContext(i, parent, timed))
    ensures Inv(Apply(s, NewContext(i, parent, timed)))
  {
    hide CellOk, ChanInv, LockInv, Calm, Later, Attached;
    InvCalm(s);
    var s1 := s.(tree := s.tree + [Node(parent, timed)], cells := s.cells + [Cell(None, None, {}, None, false, Active, false)]);
    GrowEdit(s, parent, timed);
    var st := [PropDone(|s.tree|, false)];
    assert RestOk(s1, []);
    Swap(s1, [], PropDone(|s.tree|, false));
    assert [] + st == st;
    assert Held(s.tree, []) == {} && Held(s1.tree, st) == {};
    hide StackInv, RestOk, StackOk, Held;
    ChangeAndStack(s, s1, i, st);
    assert SetStack(s1, i, st) == Apply(s, NewContext(i, parent, timed));
  }

  /** A goroutine at rest starts a cancel call, or a call of Done. */
  lemma GoCall(s: State, a: Step)
    requires Inv(s) && Enabled(s, a) && (a.CallCancel? || a.FireTimer? || a.CallDone?)
    ensures Inv(Apply(s, a))
  {
    hide CellOk, ChanInv, LockInv, Calm, Attached;
    var st := Apply(s, a).threads[a.i];
    assert RestOk(s, []);
    assert Held(s.tree, []) == {};
    if a.CallDone? {
      Swap(s, [], DoneCall(a.c, false));
      assert [] + st == st;
    } else {
      SwapCancel(s, [], a.c, if a.CallCancel? then a.remove else true, if a.CallCancel? then Canceled else DeadlineExceeded);
      assert [] + st == st;
    }
    hide StackInv, RestOk, StackOk, Held;
    StackOnly(s, a.i, st);
  }

  // ----- every step, every run -----

  lemma GoInv(s: State, i: nat, child: nat, expired: bool)
    requires Inv(s) && Enabled(s, Go(i, child, expired))
    ensures Inv(ApplyGo(s, i, child, expired))
  {
    hide Inv, ApplyGo;
    match Top(s.threads[i])
    case PropDone(_, _) => GoDone(s, i, child, expired);
    case PropSelect(_, _) => GoSelect(s, i, child, expired);
    case PropErr(_, _) => GoErr(s, i, child, expired);
    case PropFind(_, _, _) => GoFind(s, i, child, expired);
    case PropCheck(_, _) => GoCheck(s, i, child, expired);
    case PropLock(_) => GoLock(s, i, child, expired);
    case PropHold(_) => GoHold(s, i, child, expired);
    case PropGo(_) => NeverForeign(s, i);
    case PropEnd(_) => GoEnd(s, i, child, expired);
    case TimerArm(_) => GoTimer(s, i, child, expired);
    case CancelEnter(_, _, _) => GoEnter(s, i, child, expired);
    case CancelLoop(_, _, _, _) => GoLoop(s, i, child, expired);
    case TimerStop(_) => GoTimer(s, i, child, expired);
    case RemoveFind(_, _) => GoRemoveFind(s, i, child, expired);
    case RemoveCheck(_, _) => GoRemoveCheck(s, i, child, expired);
    case RemoveLock(_) => GoRemoveLock(s, i, child, expired);
    case DoneCall(_, _) => GoDoneCall(s, i, child, expired);
  }

  /** The goroutine of line 315 is never started for contexts of this package, and
      cancel never panics for want of an error. */
  lemma NeverForeign(s: State, i: nat)
    requires Inv(s) && Busy(s, i)
    ensures !Top(s.threads[i]).PropGo?
  {
    hide CellOk, ChanInv, LockInv, Held;
    assert StackInv(s, s.threads[i]);
    assert FrameOk(s.tree, Top(s.threads[i]));
  }

  lemma StepInv(s: State, a: Step)
    requires Inv(s) && Enabled(s, a)
    ensures Inv(Apply(s, a))
  {
    hide Inv, ApplyGo;
    match a
    case NewContext(i, parent, timed) => GoNew(s, i, parent, timed);
    case Go(i, child, expired) => GoInv(s, i, child, expired);
    case _ => GoCall(s, a);
  }

  lemma InitInv(count: nat)
    ensures Inv(Init(count))
  {
  }

  /** The steps can be taken one after the other from s. */
  predicate Runs(s: State, steps: seq<Step>)
    decreases steps
  {
    steps == [] || (Enabled(s, steps[0]) && Runs(Apply(s, steps[0]), steps[1..]))
  }

  function Run(s: State, steps: seq<Step>): State
    requires Runs(s, steps)
    decreases steps
  {
    if steps == [] then s else Run(Apply(s, steps[0]), steps[1..])
  }

  lemma {:induction false} RunInv(s: State, steps: seq<Step>)
    requires Inv(s) && Runs(s, steps)
    ensures Inv(Run(s, steps))
    decreases steps
  {
    hide Inv, Apply, Enabled;
    if steps != [] {
      StepInv(s, steps[0]);
      RunInv(Apply(s, steps[0]), steps[1..]);
    }
  }

  /** Reached from the start by any interleaving of any calls. */
  ghost predicate Reachable(s: State) {
    exists count: nat, steps: seq<Step> :: Runs(Init(count), steps) && s == Run(Init(count), steps)
  }

  lemma ReachableInv(s: State)
    requires Reachable(s)
    ensures Inv(s)
  {
    hide Inv, Apply, Enabled, Init, Runs, Run;
    var count: nat, steps: seq<Step> :| Runs(Init(count), steps) && s == Run(Init(count), steps);
    InitInv(count);
    RunInv(Init(count), steps);
  }

  // ----- the promises -----

  /** c has an error and its done channel is closed. */
  ghost predicate Cancelled(s: State, c: nat) {
    IsCtx(s, c) && s.cells[c].err.Some? && s.cells[c].done.Some? && IsClosed(s, s.cells[c].done.value)
  }

  /** Whenever a context's lock is free and its error set, every descendant whose
      propagateCancel has finished is cancelled, its done channel closed. */
  lemma CancelReachesDescendants(s: State, a: nat, d: nat)
    requires Reachable(s) && IsCtx(s, a) && IsCtx(s, d)
    requires s.cells[a].lock.None? && s.cells[a].err.Some? && s.cells[d].finished
    requires TreeOk(s.tree) && Ancestor(s.tree, a, d)
    ensures Cancelled(s, d)
  {
    hide Inv, Ancestor;
    ReachableInv(s);
    FreeMeansSettled(s, a);
    SettledDown(s, a, d);
    SettledIsCancelled(s, d);
  }

  lemma {:induction false} SettledDown(s: State, a: nat, d: nat)
    requires Inv(s) && IsCtx(s, a) && IsCtx(s, d) && s.cells[a].phase.Settled? && s.cells[d].finished
    requires Ancestor(s.tree, a, d)
    ensures s.cells[d].phase.Settled?
    decreases d
  {
    hide ChanInv, LockInv, StackInv;
    if a != d {
      assert CellOk(s, d);
      var p := ParentOf(s, d);
      SettledDown(s, a, p);
    }
  }

  lemma SettledIsCancelled(s: State, c: nat)
    requires Inv(s) && SettledAt(s, c)
    ensures Cancelled(s, c)
  {
    hide ChanInv, LockInv, StackInv, Attached;
    assert CellOk(s, c);
  }

  /** No channel is ever closed twice. */
  lemma ClosedAtMostOnce(s: State, ch: nat)
    requires Reachable(s) && ch < |s.closings|
    ensures s.closings[ch] <= 1
  {
    hide LockInv, StackInv, CellOk;
    ReachableInv(s);
  }

  /** Over any further run, the channel Done returns stays the same and the error,
      once set, never changes. */
  lemma {:induction false} DoneAndErrStable(s: State, steps: seq<Step>, c: nat)
    requires Inv(s) && Runs(s, steps) && IsCtx(s, c)
    ensures var s' := Run(s, steps);
      && IsCtx(s', c)
      && (s.cells[c].done.Some? ==> s'.cells[c].done == s.cells[c].done)
      && (s.cells[c].err.Some? ==> s'.cells[c].err == s.cells[c].err)
    decreases steps
  {
    hide Inv, Apply, Enabled;
    if steps != [] {
      StepInv(s, steps[0]);
      StepStable(s, steps[0], c);
      DoneAndErrStable(Apply(s, steps[0]), steps[1..], c);
    }
  }

  /** What DoneAndErrStable says of one step. */
  ghost predicate Stable(s: State, s': State, c: nat) {
    && IsCtx(s, c) && IsCtx(s', c)
    && (s.cells[c].done.Some? ==> s'.cells[c].done == s.cells[c].done)
    && (s.cells[c].err.Some? ==> s'.cells[c].err == s.cells[c].err)
  }

  lemma StepStable(s: State, a: Step, c: nat)
    requires Inv(s) && Enabled(s, a) && IsCtx(s, c)
    ensures Stable(s, Apply(s, a), c)
  {
    hide Inv, ApplyGo, CancelFrames;
    if a.Go? {
      if Top(s.threads[a.i]).CancelEnter? {
        EnterStable(s, a.i, a.child, a.expired, c);
      } else {
        GoStable(s, a.i, a.child, a.expired, c);
      }
    }
  }

  lemma GoStable(s: State, i: nat, child: nat, expired: bool, c: nat)
    requires Enabled(s, Go(i, child, expired)) && IsCtx(s, c) && !Top(s.threads[i]).CancelEnter?
    ensures Stable(s, ApplyGo(s, i, child, expired), c)
  {
    var f := Top(s.threads[i]);
    if f.PropDone? || f.PropFind? || f.RemoveFind? || f.DoneCall? {
      LookupStable(s, i, child, expired, c);
    } else {
      OtherStable(s, i, child, expired, c);
    }
  }

  /** The frames that ask for a done channel. */
  lemma LookupStable(s: State, i: nat, child: nat, expired: bool, c: nat)
    requires Enabled(s, Go(i, child, expired)) && IsCtx(s, c)
    requires var f := Top(s.threads[i]); f.PropDone? || f.PropFind? || f.RemoveFind? || f.DoneCall?
    ensures Stable(s, ApplyGo(s, i, child, expired), c)
  {
    hide MarkCancelled, CancelFrames, Wanted, Free;
  }

  lemma OtherStable(s: State, i: nat, child: nat, expired: bool, c: nat)
    requires Enabled(s, Go(i, child, expired)) && IsCtx(s, c)
    requires var f := Top(s.threads[i]); !f.CancelEnter? && !f.PropDone? && !f.PropFind? && !f.RemoveFind? && !f.DoneCall?
    ensures Stable(s, ApplyGo(s, i, child, expired), c)
  {
    hide MarkCancelled, CancelFrames, Wanted, Free, DoneOf;
  }

  lemma EnterStable(s: State, i: nat, child: nat, expired: bool, c: nat)
    requires Inv(s) && Enabled(s, Go(i, child, expired)) && IsCtx(s, c) && Top(s.threads[i]).CancelEnter?
    ensures Stable(s, ApplyGo(s, i, child, expired), c)
  {
    hide Inv, MarkCancelled, CancelFrames, Wanted;
    var f := Top(s.threads[i]);
    InvCalm(s);
    if s.cells[f.c].err.None? { MarkedOnce(s, f.c, i, f.err, c); }
  }

  lemma MarkedOnce(s: State, c: nat, i: nat, err: Error, d: nat)
    requires Calm(s) && IsCtx(s, c) && IsCtx(s, d) && s.cells[c].err.None?
    ensures var s' := MarkCancelled(s, c, i, err);
      && IsCtx(s', d)
      && (s.cells[d].done.Some? ==> s'.cells[d].done == s.cells[d].done)
      && (s.cells[d].err.Some? ==> s'.cells[d].err == s.cells[d].err)
  {
    hide CellOk, ChanInv, Attached;
  }

  // ----- locks -----

  /** Lock order: while a goroutine waits for the lock w, every lock it holds belongs
      to a proper ancestor of w. */
  lemma ParentBeforeChild(s: State, i: nat, w: nat, h: nat)
    requires Reachable(s) && Busy(s, i) && Wanted(s, Top(s.threads[i])) == Some(w) && h in Held(s.tree, s.threads[i])
    ensures TreeOk(s.tree) && h < w && Ancestor(s.tree, h, w)
  {
    hide CellOk, ChanInv, LockInv, StackInv, Wanted, Ancestor, Held;
    ReachableInv(s);
    WaitOrder(s, i, w, h);
  }

  lemma WaitOrder(s: State, i: nat, w: nat, h: nat)
    requires Inv(s) && Busy(s, i) && Wanted(s, Top(s.threads[i])) == Some(w) && h in Held(s.tree, s.threads[i])
    ensures h < w && Ancestor(s.tree, h, w)
  {
    hide CellOk, ChanInv, LockInv, Ancestor, StackOk, Held;
    TopFacts(s, i);
    assert StackInv(s, s.threads[i]);
    BottomOnly(s, i);
    assert Held(s.tree, []) == {} by { HeldNothing(s.tree); }
    HeldAreAncestors(s.tree, s.threads[i], h);
  }

  lemma HeldNothing(tree: seq<Node>)
    ensures Held(tree, []) == {}
  {
  }

  /** No deadlock: as long as a goroutine is inside a call, some goroutine can take a
      step. */
  lemma NoDeadlock(s: State, i: nat)
    requires Reachable(s) && Busy(s, i)
    ensures exists j: nat, child: nat :: Enabled(s, Go(j, child, false))
  {
    hide Inv, Enabled;
    ReachableInv(s);
    var j, child := Unblocked(s, i, |s.tree|);
  }

  /** Following the locks from a blocked goroutine to their holders goes down the tree
      and ends at one that can move. */
  lemma {:induction false} Unblocked(s: State, i: nat, room: nat) returns (j: nat, child: nat)
    requires Inv(s) && Busy(s, i)
    requires forall w | Wanted(s, Top(s.threads[i])) == Some(w) :: w + room >= |s.tree|
    ensures Enabled(s, Go(j, child, false))
    decreases room
  {
    hide CellOk, ChanInv, LockInv, StackInv, Held, Wanted;
    TopFacts(s, i);
    var f := Top(s.threads[i]);
    WantedIsCtx(s, f);
    if Free(s, Wanted(s, f)) {
      j := i;
      child := PickChild(s, f.c);
    } else {
      var w := Wanted(s, f).value;
      var k := HolderOf(s, w);
      forall w' | Wanted(s, Top(s.threads[k])) == Some(w')
        ensures w < w'
      {
        WaitOrder(s, k, w', w);
      }
      TopFacts(s, k);
      WantedIsCtx(s, Top(s.threads[k]));
      j, child := Unblocked(s, k, room - 1);
    }
  }

  lemma WantedIsCtx(s: State, f: Frame)
    requires Inv(s) && FrameOk(s.tree, f)
    ensures Wanted(s, f).Some? ==> IsCtx(s, Wanted(s, f).value)
  {
    hide CellOk, ChanInv, LockInv, StackInv;
  }

  lemma PickChild(s: State, c: nat) returns (child: nat)
    requires IsCtx(s, c)
    ensures s.cells[c].phase.Looping? && s.cells[c].phase.todo != {} ==> child in s.cells[c].phase.todo
  {
    child := 0;
    if s.cells[c].phase.Looping? && s.cells[c].phase.todo != {} {
      child :| child in s.cells[c].phase.todo;
    }
  }

  lemma HolderOf(s: State, w: nat) returns (k: nat)
    requires Inv(s) && IsCtx(s, w) && s.cells[w].lock.Some?
    ensures Busy(s, k) && w in Held(s.tree, s.threads[k])
  {
    hide CellOk, ChanInv, StackInv;
    k := s.cells[w].lock.value;
  }

  // ----- every call returns -----

  /** A frame's steps, and those of the frames it puts in its place, not counting the
      children a cancel call goes through. */
  function Weight(f: Frame): nat {
    match f
    case PropDone(_, wait) => if wait then 17 else 18
    case PropSelect(_, _) => 16
    case PropErr(_, _) => 10
    case PropFind(_, _, wait) => if wait then 14 else 15
    case PropCheck(_, _) => 13
    case PropLock(_) => 12
    case PropHold(_) => 8
    case PropGo(_) => 8
    case PropEnd(_) => 7
    case TimerArm(_) => 1
    case CancelEnter(_, _, _) => 1
    case CancelLoop(_, _, _, cur) => if cur.Some? then 2 else 5
    case TimerStop(_) => 1
    case RemoveFind(_, wait) => if wait then 3 else 4
    case RemoveCheck(_, _) => 2
    case RemoveLock(_) => 1
    case DoneCall(_, wait) => if wait then 1 else 2
  }

  function StackWeight(st: seq<Frame>): nat {
    if st == [] then 0 else StackWeight(Rest(st)) + Weight(Top(st))
  }

  function ThreadsWeight(threads: seq<seq<Frame>>): nat {
    if threads == [] then 0 else StackWeight(threads[0]) + ThreadsWeight(threads[1..])
  }

  /** What cancelling a context can still cost, its children's own calls included. */
  function CellWeight(cell: Cell): nat {
    match cell.phase
    case Active => 5 + 4 * |cell.children|
    case Looping(todo) => 4 * |todo|
    case Settled => 0
  }

  function CellsWeight(cells: seq<Cell>): nat {
    if cells == [] then 0 else CellWeight(cells[0]) + CellsWeight(cells[1..])
  }

  /** Steps that are still possible without a new call. */
  function Remaining(s: State): nat { CellsWeight(s.cells) + ThreadsWeight(s.threads) }

  lemma StackSnoc(st: seq<Frame>, f: Frame)
    ensures StackWeight(st + [f]) == StackWeight(st) + Weight(f)
  {
    SnocStack(st, f);
  }

  /** The frames of a cancel call cost little besides the children. */
  lemma CancelWeight(st: seq<Frame>, timed: bool, c: nat, remove: bool, err: Error)
    ensures StackWeight(st + CancelFrames(timed, c, remove, err)) <= StackWeight(st) + if remove then 6 else 2
  {
    hide StackWeight;
    var e := CancelEnter(c, false, err);
    if !timed {
      StackSnoc(st, CancelEnter(c, remove, err));
    } else {
      StackSnoc(st, TimerStop(c));
      var st1 := st + [TimerStop(c)];
      if !remove {
        StackSnoc(st1, e);
        assert st + [TimerStop(c), e] == st1 + [e];
      } else {
        StackSnoc(st1, RemoveFind(c, false));
        StackSnoc(st1 + [RemoveFind(c, false)], e);
        assert st + [TimerStop(c), RemoveFind(c, false), e] == st1 + [RemoveFind(c, false)] + [e];
      }
    }
  }

  lemma {:induction false} ThreadsPut(threads: seq<seq<Frame>>, i: nat, st: seq<Frame>)
    requires i < |threads|
    ensures ThreadsWeight(threads[i := st]) == ThreadsWeight(threads) - StackWeight(threads[i]) + StackWeight(st)
    decreases threads
  {
    hide StackWeight;
    if i == 0 {
      assert threads[i := st][1..] == threads[1..];
    } else {
      assert threads[i := st][1..] == threads[1..][i - 1 := st];
      ThreadsPut(threads[1..], i - 1, st);
    }
  }

  lemma {:induction false} CellsPut(cells: seq<Cell>, c: nat, cell: Cell)
    requires c < |cells|
    ensures CellsWeight(cells[c := cell]) == CellsWeight(cells) - CellWeight(cells[c]) + CellWeight(cell)
    decreases cells
  {
    hide CellWeight;
    if c == 0 {
      assert cells[c := cell][1..] == cells[1..];
    } else {
      assert cells[c := cell][1..] == cells[1..][c - 1 := cell];
      CellsPut(cells[1..], c - 1, cell);
    }
  }

  lemma {:induction false} CellsSnoc(cells: seq<Cell>, cell: Cell)
    ensures CellsWeight(cells + [cell]) == CellsWeight(cells) + CellWeight(cell)
  {
    hide CellWeight;
    if cells == [] {
      assert cells + [cell] == [cell];
    } else {
      assert (cells + [cell])[1..] == cells[1..] + [cell];
      CellsSnoc(cells[1..], cell);
    }
  }

  /** The one context whose fields a step in frame f may change. */
  function Touched(s: State, f: Frame): nat {
    if HasParent(s, f.c) && !f.PropEnd? && !f.TimerArm? && !f.TimerStop? && !f.CancelEnter? && !f.CancelLoop? && !f.DoneCall?
    then ParentOf(s, f.c) else f.c
  }

  lemma OneEdit(s: State, i: nat, child: nat, expired: bool)
    requires Enabled(s, Go(i, child, expired))
    ensures var s' := ApplyGo(s, i, child, expired); var p := Touched(s, Top(s.threads[i]));
      && p < |s.cells| == |s'.cells| && |s'.threads| == |s.threads|
      && s'.threads == s.threads[i := s'.threads[i]] && s'.cells == s.cells[p := s'.cells[p]]
  {
    hide CancelFrames, Wanted;
  }

  /** What a step leaves of its stack and of that context weighs less than before. */
  ghost predicate Lighter(s: State, s': State, i: nat) {
    && Busy(s, i) && i < |s'.threads|
    && var p := Touched(s, Top(s.threads[i]));
      && p < |s.cells| && p < |s'.cells|
      && StackWeight(s'.threads[i]) + CellWeight(s'.cells[p]) < StackWeight(s.threads[i]) + CellWeight(s.cells[p])
  }

  lemma LighterBy(s: State, s': State, i: nat)
    requires Busy(s, i) && i < |s'.threads|
    requires var p := Touched(s, Top(s.threads[i]));
      && p < |s.cells| && p < |s'.cells|
      && StackWeight(s'.threads[i]) + CellWeight(s'.cells[p])
         < StackWeight(Rest(s.threads[i])) + Weight(Top(s.threads[i])) + CellWeight(s.cells[p])
    ensures Lighter(s, s', i)
  {
    hide Weight, CellWeight, Touched;
  }

  /** Done keeps what counts. */
  lemma DoneWeight(s: State, p: nat)
    requires p < |s.cells|
    ensures var s' := DoneOf(s, p).0; s'.threads == s.threads && |s'.cells| == |s.cells|
    ensures var s' := DoneOf(s, p).0; CellWeight(s'.cells[p]) == CellWeight(s.cells[p])
  {
  }

  lemma DoneLighter(s: State, i: nat, child: nat, expired: bool)
    requires Inv(s) && Enabled(s, Go(i, child, expired))
    requires var f := Top(s.threads[i]); f.PropDone? || f.PropFind? || f.RemoveFind? || f.DoneCall?
    ensures Lighter(s, ApplyGo(s, i, child, expired), i)
  {
    hide Inv, StackWeight, Wanted, CancelFrames, CellWeight, DoneOf, Lighter;
    var f, st := Top(s.threads[i]), Rest(s.threads[i]);
    var s' := ApplyGo(s, i, child, expired);
    DoneWeight(s, Touched(s, f));
    if s'.threads[i] != st {
      StackSnoc(st, Top(s'.threads[i]));
      assert s'.threads[i] == st + [Top(s'.threads[i])];
    }
    LighterBy(s, s', i);
  }

  lemma PropLighter(s: State, i: nat, child: nat, expired: bool)
    requires Inv(s) && Enabled(s, Go(i, child, expired))
    requires var f := Top(s.threads[i]); f.PropSelect? || f.PropCheck? || f.PropGo? || f.PropHold? || f.PropErr?
    ensures Lighter(s, ApplyGo(s, i, child, expired), i)
  {
    hide Inv, StackWeight, Wanted, CancelFrames, Lighter;
    var f, st := Top(s.threads[i]), Rest(s.threads[i]);
    var s' := ApplyGo(s, i, child, expired);
    if f.PropErr? && HasParent(s, f.c) && s.cells[ParentOf(s, f.c)].err.Some? {
      StackSnoc(st, PropEnd(f.c));
      CancelWeight(st + [PropEnd(f.c)], s.tree[f.c].timed, f.c, false, s.cells[ParentOf(s, f.c)].err.value);
    } else {
      StackSnoc(st, Top(s'.threads[i]));
      assert s'.threads[i] == st + [Top(s'.threads[i])];
    }
    LighterBy(s, s', i);
  }

  /** A new child costs its parent what cancelling it may take. */
  lemma LockLighter(s: State, i: nat, child: nat, expired: bool)
    requires Inv(s) && Enabled(s, Go(i, child, expired)) && Top(s.threads[i]).PropLock?
    ensures Lighter(s, ApplyGo(s, i, child, expired), i)
  {
    hide Inv, StackWeight, CellWeight, Wanted, CancelFrames, Lighter;
    var f, st := Top(s.threads[i]), Rest(s.threads[i]);
    var s' := ApplyGo(s, i, child, expired);
    StackSnoc(st, PropGo(f.c));
    StackSnoc(st, PropEnd(f.c));
    if HasParent(s, f.c) {
      var p := ParentOf(s, f.c);
      var cell := s.cells[p];
      if cell.err.Some? {
        HeldWeight(st, f.c, s.tree[f.c].timed, cell.err.value);
        SameWeight(cell, Some(i));
      } else {
        OneMoreChild(cell, f.c);
      }
    }
    LighterBy(s, s', i);
  }

  lemma HeldWeight(st: seq<Frame>, c: nat, timed: bool, err: Error)
    ensures StackWeight(st + [PropHold(c)] + CancelFrames(timed, c, false, err)) <= StackWeight(st) + 10
  {
    hide StackWeight, CancelFrames;
    StackSnoc(st, PropHold(c));
    CancelWeight(st + [PropHold(c)], timed, c, false, err);
  }

  lemma SameWeight(cell: Cell, lock: Option<nat>)
    ensures CellWeight(cell.(lock := lock)) == CellWeight(cell)
  {
  }

  lemma OneMoreChild(cell: Cell, c: nat)
    ensures CellWeight(cell.(children := cell.children + {c})) <= CellWeight(cell) + 4
    ensures CellWeight(cell.(children := cell.children - {c})) <= CellWeight(cell)
  {
    assert c in cell.children ==> cell.children + {c} == cell.children;
    assert |cell.children - {c}| <= |cell.children|;
  }

  lemma EndLighter(s: State, i: nat, child: nat, expired: bool)
    requires Inv(s) && Enabled(s, Go(i, child, expired))
    requires var f := Top(s.threads[i]); f.PropEnd? || f.TimerArm? || f.TimerStop?
    ensures Lighter(s, ApplyGo(s, i, child, expired), i)
  {
    hide Inv, StackWeight, Wanted, CancelFrames, Lighter;
    var f, st := Top(s.threads[i]), Rest(s.threads[i]);
    var s' := ApplyGo(s, i, child, expired);
    StackSnoc(st, TimerArm(f.c));
    CancelWeight(st, true, f.c, true, DeadlineExceeded);
    LighterBy(s, s', i);
  }

  lemma RemoveLighter(s: State, i: nat, child: nat, expired: bool)
    requires Inv(s) && Enabled(s, Go(i, child, expired))
    requires var f := Top(s.threads[i]); f.RemoveCheck? || f.RemoveLock?
    ensures Lighter(s, ApplyGo(s, i, child, expired), i)
  {
    hide Inv, StackWeight, Wanted, CellWeight, Lighter;
    var f, st := Top(s.threads[i]), Rest(s.threads[i]);
    var s' := ApplyGo(s, i, child, expired);
    StackSnoc(st, RemoveLock(f.c));
    OneMoreChild(s.cells[Touched(s, f)], f.c);
    LighterBy(s, s', i);
  }

  /** The first cancel call of a context uses up what the context weighed. */
  lemma EnterLighter(s: State, i: nat, child: nat, expired: bool)
    requires Inv(s) && Enabled(s, Go(i, child, expired)) && Top(s.threads[i]).CancelEnter?
    ensures Lighter(s, ApplyGo(s, i, child, expired), i)
  {
    hide StackInv, ChanInv, LockInv, Attached, StackWeight, Wanted, Lighter;
    var f, st := Top(s.threads[i]), Rest(s.threads[i]);
    var s' := ApplyGo(s, i, child, expired);
    assert CellOk(s, f.c);
    StackSnoc(st, CancelLoop(f.c, f.remove, f.err, None));
    LighterBy(s, s', i);
  }

  /** The child a cancel call is busy with is one it still has to deal with. */
  ghost predicate CurOk(s: State, f: Frame) {
    f.CancelLoop? && f.cur.Some? ==>
      IsCtx(s, f.c) && s.cells[f.c].phase.Looping? && f.cur.value in s.cells[f.c].phase.todo
  }

  ghost predicate Chosen(s: State) {
    forall i, k | 0 <= i < |s.threads| && 0 <= k < |s.threads[i]| :: CurOk(s, s.threads[i][k])
  }

  /** Only the goroutine going through the children takes them off the list. */
  lemma TodoKept(s: State, i: nat, child: nat, expired: bool, c: nat)
    requires Inv(s) && Enabled(s, Go(i, child, expired)) && IsCtx(s, c) && s.cells[c].phase.Looping?
    requires !(Top(s.threads[i]).CancelLoop? && Top(s.threads[i]).c == c)
    ensures var s' := ApplyGo(s, i, child, expired); c < |s'.cells| && s'.cells[c].phase == s.cells[c].phase
  {
    hide CellOk, StackInv, ChanInv, LockInv, ApplyGo, Wanted, Free;
    OneEdit(s, i, child, expired);
    if Touched(s, Top(s.threads[i])) == c {
      assert CellOk(s, c);
      TouchedTodo(s, i, child, expired);
    }
  }

  lemma TouchedTodo(s: State, i: nat, child: nat, expired: bool)
    requires Enabled(s, Go(i, child, expired)) && !Top(s.threads[i]).CancelLoop?
    requires var c := Touched(s, Top(s.threads[i])); CellOk(s, c) && s.cells[c].phase.Looping?
    ensures var c := Touched(s, Top(s.threads[i])); var s' := ApplyGo(s, i, child, expired);
      c < |s'.cells| && s'.cells[c].phase == s.cells[c].phase
  {
    hide Attached, Wanted, CancelFrames, KnownChildren;
  }

  lemma SameTree(s: State, i: nat, child: nat, expired: bool)
    requires Enabled(s, Go(i, child, expired))
    ensures ApplyGo(s, i, child, expired).tree == s.tree
  {
    hide Wanted, CancelFrames;
  }

  lemma CurKept(s: State, i: nat, child: nat, expired: bool, f: Frame)
    requires Inv(s) && Enabled(s, Go(i, child, expired)) && CurOk(s, f)
    requires f.CancelLoop? ==> !(Top(s.threads[i]).CancelLoop? && Top(s.threads[i]).c == f.c)
    ensures CurOk(ApplyGo(s, i, child, expired), f)
  {
    hide Inv, ApplyGo;
    OneEdit(s, i, child, expired);
    SameTree(s, i, child, expired);
    if f.CancelLoop? && f.cur.Some? { TodoKept(s, i, child, expired, f.c); }
  }

  lemma NoLoops(timed: bool, c: nat, remove: bool, err: Error)
    ensures forall f | f in CancelFrames(timed, c, remove, err) :: !f.CancelLoop?
  {
  }

  lemma NewFrames(s: State, i: nat, child: nat, expired: bool)
    requires Enabled(s, Go(i, child, expired)) && !Top(s.threads[i]).CancelLoop? && !Top(s.threads[i]).CancelEnter?
    ensures var st := ApplyGo(s, i, child, expired).threads[i]; var n := |Rest(s.threads[i])|;
      n <= |st| && st[..n] == Rest(s.threads[i]) && forall k | n <= k < |st| :: !st[k].CancelLoop?
  {
    hide Wanted, CancelFrames;
    var f := Top(s.threads[i]);
    NoLoops(s.tree[f.c].timed, f.c, true, DeadlineExceeded);
    NoLoops(true, f.c, true, DeadlineExceeded);
    if HasParent(s, f.c) && s.cells[ParentOf(s, f.c)].err.Some? {
      NoLoops(s.tree[f.c].timed, f.c, false, s.cells[ParentOf(s, f.c)].err.value);
    }
  }

  lemma NewLoopFrames(s: State, i: nat, child: nat, expired: bool)
    requires Enabled(s, Go(i, child, expired)) && (Top(s.threads[i]).CancelLoop? || Top(s.threads[i]).CancelEnter?)
    ensures var s' := ApplyGo(s, i, child, expired); var st, n := s'.threads[i], |Rest(s.threads[i])|;
      && n <= |st| && st[..n] == Rest(s.threads[i])
      && (forall k | n < k < |st| :: !st[k].CancelLoop?) && (n < |st| ==> CurOk(s', st[n]))
  {
    hide Wanted, CancelFrames;
    var f := Top(s.threads[i]);
    NoLoops(child < |s.tree| && s.tree[child].timed, child, false, f.err);
  }

  /** Another goroutine is not going through the same children. */
  lemma NotBoth(s: State, i: nat, j: nat, k: nat)
    requires Inv(s) && Busy(s, i) && j < |s.threads| && k < |s.threads[j]| && (j == i ==> k < |s.threads[i]| - 1)
    requires s.threads[j][k].CancelLoop?
    ensures !(Top(s.threads[i]).CancelLoop? && Top(s.threads[i]).c == s.threads[j][k].c)
  {
    hide CellOk, ChanInv, StackInv, Held;
    if Top(s.threads[i]).CancelLoop? {
      HeldIsLocked(s, i);
      HeldIsLocked(s, j);
      HeldAt(s.tree, s.threads[i], |s.threads[i]| - 1);
      NotHeldTwice(s, i);
      if j == i {
        HeldAt(s.tree, Rest(s.threads[i]), k);
      } else {
        HeldAt(s.tree, s.threads[j], k);
      }
    }
  }

  lemma GoChosen(s: State, i: nat, child: nat, expired: bool)
    requires Inv(s) && Chosen(s) && Enabled(s, Go(i, child, expired))
    ensures Chosen(ApplyGo(s, i, child, expired))
  {
    hide Inv, ApplyGo, CurOk, Wanted, Free;
    var s' := ApplyGo(s, i, child, expired);
    OneEdit(s, i, child, expired);
    if Top(s.threads[i]).CancelLoop? || Top(s.threads[i]).CancelEnter? {
      NewLoopFrames(s, i, child, expired);
    } else {
      NewFrames(s, i, child, expired);
    }
    forall j, k | 0 <= j < |s'.threads| && 0 <= k < |s'.threads[j]|
      ensures CurOk(s', s'.threads[j][k])
    {
      if j != i || k < |Rest(s.threads[i])| {
        assert s'.threads[j][k] == s.threads[j][k];
        if s.threads[j][k].CancelLoop? { NotBoth(s, i, j, k); }
        CurKept(s, i, child, expired, s.threads[j][k]);
      } else if !s'.threads[j][k].CancelLoop? {
        NotLooping(s', s'.threads[j][k]);
      }
    }
  }

  lemma NotLooping(s: State, f: Frame)
    requires !f.CancelLoop?
    ensures CurOk(s, f)
  {
  }

  lemma StepChosen(s: State, a: Step)
    requires Inv(s) && Chosen(s) && Enabled(s, a)
    ensures Chosen(Apply(s, a))
  {
    hide Inv, ApplyGo;
    if a.Go? {
      GoChosen(s, a.i, a.child, a.expired);
    } else {
      var s' := Apply(s, a);
      forall j, k | 0 <= j < |s'.threads| && 0 <= k < |s'.threads[j]|
        ensures CurOk(s', s'.threads[j][k])
      {
        if j != a.i { assert CurOk(s, s.threads[j][k]); }
      }
    }
  }

  lemma LoopLighter(s: State, i: nat, child: nat, expired: bool)
    requires Inv(s) && Chosen(s) && Enabled(s, Go(i, child, expired)) && Top(s.threads[i]).CancelLoop?
    ensures Lighter(s, ApplyGo(s, i, child, expired), i)
  {
    hide Inv, StackWeight, CellWeight, Wanted, CancelFrames, Lighter;
    var f, st := Top(s.threads[i]), Rest(s.threads[i]);
    var s' := ApplyGo(s, i, child, expired);
    assert CurOk(s, f);
    StackSnoc(st, CancelLoop(f.c, f.remove, f.err, None));
    StackSnoc(st, RemoveFind(f.c, false));
    ChildWeight(st, f.c, f.remove, f.err, child, child < |s.tree| && s.tree[child].timed);
    if s.cells[f.c].phase.Looping? { LoopWeight(s.cells[f.c]); }
    LighterBy(s, s', i);
  }

  lemma ChildWeight(st: seq<Frame>, c: nat, remove: bool, err: Error, child: nat, timed: bool)
    ensures StackWeight(st + [CancelLoop(c, remove, err, Some(child))] + CancelFrames(timed, child, false, err)) <= StackWeight(st) + 4
  {
    hide StackWeight, CancelFrames;
    StackSnoc(st, CancelLoop(c, remove, err, Some(child)));
    CancelWeight(st + [CancelLoop(c, remove, err, Some(child))], timed, child, false, err);
  }

  /** A child that is ticked off, and the end of the loop. */
  lemma LoopWeight(cell: Cell)
    requires cell.phase.Looping?
    ensures forall d | d in cell.phase.todo :: CellWeight(cell.(phase := Looping(cell.phase.todo - {d}))) == CellWeight(cell) - 4
    ensures CellWeight(cell.(lock := None, children := {}, phase := Settled)) <= CellWeight(cell)
  {
  }

  /** Every step of a goroutine inside a call is one of finitely many. */
  lemma GoShrinks(s: State, i: nat, child: nat, expired: bool)
    requires Inv(s) && Chosen(s) && Enabled(s, Go(i, child, expired))
    ensures Remaining(ApplyGo(s, i, child, expired)) < Remaining(s)
  {
    hide Inv, Chosen, ApplyGo, StackWeight, CellWeight, ThreadsWeight, CellsWeight, Touched;
    var s' := ApplyGo(s, i, child, expired);
    GoLighter(s, i, child, expired);
    OneEdit(s, i, child, expired);
    var p := Touched(s, Top(s.threads[i]));
    ThreadsPut(s.threads, i, s'.threads[i]);
    CellsPut(s.cells, p, s'.cells[p]);
  }

  lemma GoLighter(s: State, i: nat, child: nat, expired: bool)
    requires Inv(s) && Chosen(s) && Enabled(s, Go(i, child, expired))
    ensures Lighter(s, ApplyGo(s, i, child, expired), i)
  {
    hide Inv, Chosen, ApplyGo, Lighter;
    match Top(s.threads[i])
    case PropLock(_) => LockLighter(s, i, child, expired);
    case CancelEnter(_, _, _) => EnterLighter(s, i, child, expired);
    case CancelLoop(_, _, _, _) => LoopLighter(s, i, child, expired);
    case PropEnd(_) => EndLighter(s, i, child, expired);
    case TimerArm(_) => EndLighter(s, i, child, expired);
    case TimerStop(_) => EndLighter(s, i, child, expired);
    case RemoveCheck(_, _) => RemoveLighter(s, i, child, expired);
    case RemoveLock(_) => RemoveLighter(s, i, child, expired);
    case PropDone(_, _) => DoneLighter(s, i, child, expired);
    case PropFind(_, _, _) => DoneLighter(s, i, child, expired);
    case RemoveFind(_, _) => DoneLighter(s, i, child, expired);
    case DoneCall(_, _) => DoneLighter(s, i, child, expired);
    case _ => PropLighter(s, i, child, expired);
  }

  /** The most steps a call adds to a run. */
  function Cost(a: Step): nat {
    match a
    case NewContext(_, _, _) => 24
    case CallCancel(_, _, _) => 7
    case FireTimer(_, _) => 7
    case CallDone(_, _) => 3
    case Go(_, _, _) => 0
  }

  function Budget(steps: seq<Step>): nat {
    if steps == [] then 0 else Cost(steps[0]) + Budget(steps[1..])
  }

  lemma StepCost(s: State, a: Step)
    requires Inv(s) && Chosen(s) && Enabled(s, a)
    ensures 1 + Remaining(Apply(s, a)) <= Remaining(s) + Cost(a)
  {
    hide Inv, Chosen, ApplyGo, ThreadsWeight, CellsWeight, Weight, StackWeight;
    match a
    case Go(i, child, expired) => GoShrinks(s, i, child, expired);
    case NewContext(i, _, _) => NewCost(s, a);
    case _ => CallCost(s, a);
  }

  lemma NewCost(s: State, a: Step)
    requires Enabled(s, a) && a.NewContext?
    ensures 1 + Remaining(Apply(s, a)) <= Remaining(s) + Cost(a)
  {
    hide ThreadsWeight, CellsWeight;
    var s' := Apply(s, a);
    ThreadsPut(s.threads, a.i, s'.threads[a.i]);
    CellsSnoc(s.cells, s'.cells[|s.cells|]);
    assert s'.threads[a.i] == [] + [PropDone(|s.tree|, false)];
    StackSnoc([], PropDone(|s.tree|, false));
  }

  lemma CallCost(s: State, a: Step)
    requires Enabled(s, a) && (a.CallCancel? || a.FireTimer? || a.CallDone?)
    ensures 1 + Remaining(Apply(s, a)) <= Remaining(s) + Cost(a)
  {
    hide ThreadsWeight, CellsWeight, CancelFrames, ApplyGo, Wanted;
    var s' := Apply(s, a);
    var st := s'.threads[a.i];
    ThreadsPut(s.threads, a.i, st);
    assert st == [] + st;
    if a.CallDone? {
      StackSnoc([], DoneCall(a.c, false));
    } else {
      CancelWeight([], s.tree[a.c].timed, a.c, if a.CallCancel? then a.remove else true, if a.CallCancel? then Canceled else DeadlineExceeded);
    }
  }

  lemma {:induction false} StepsBounded(s: State, steps: seq<Step>)
    requires Inv(s) && Chosen(s) && Runs(s, steps)
    ensures |steps| + Remaining(Run(s, steps)) <= Remaining(s) + Budget(steps)
    decreases steps
  {
    hide Inv, Chosen, Apply, Enabled, Remaining, Cost;
    if steps != [] {
      StepInv(s, steps[0]);
      StepChosen(s, steps[0]);
      StepCost(s, steps[0]);
      StepsBounded(Apply(s, steps[0]), steps[1..]);
    }
  }

  /** Every call returns: whatever the tree and the interleaving, a run has no more steps
      than its calls allow, each at most 24, however many descendants a cancel call goes
      through. With NoDeadlock, a run continued without new calls ends with every
      goroutine at rest. */
  lemma CallsReturn(count: nat, steps: seq<Step>)
    requires Runs(Init(count), steps)
    ensures |steps| + Remaining(Run(Init(count), steps)) <= Budget(steps)
  {
    hide Inv, Chosen, Apply, Enabled;
    InitInv(count);
    IdleWeight(count);
    StepsBounded(Init(count), steps);
  }

  lemma {:induction false} IdleWeight(count: nat)
    ensures Remaining(Init(count)) == 0 && Chosen(Init(count))
  {
    if count > 0 {
      assert Init(count).threads[1..] == Init(count - 1).threads;
      IdleWeight(count - 1);
    }
  }
}
