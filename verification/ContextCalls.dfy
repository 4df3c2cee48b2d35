/** What the calls of package context have done when they return: the second half of the
    results about the transition system of module Context. */
module ContextCalls {
  import opened Common
  import opened Context

  /** The step is a call by goroutine i. */
  predicate CallsBy(a: Step, i: nat) { !a.Go? && a.i == i }

  predicate IsCancel(a: Step) { a.CallCancel? || a.FireTimer? }

  // ----- small facts about steps -----

  lemma OthersKept(s: State, a: Step, j: nat)
    requires Enabled(s, a) && j < |s.threads| && j != a.i
    ensures j < |Apply(s, a).threads| == |s.threads| && Apply(s, a).threads[j] == s.threads[j]
  {
    hide ApplyGo, CancelFrames, Wanted;
    if a.Go? { OneEdit(s, a.i, a.child, a.expired); }
  }

  /** The frames below the top one stay. */
  lemma RestKept(s: State, i: nat, child: nat, expired: bool)
    requires Enabled(s, Go(i, child, expired))
    ensures var st, n := ApplyGo(s, i, child, expired).threads, |s.threads[i]| - 1;
      i < |st| == |s.threads| && n <= |st[i]| && st[i][..n] == s.threads[i][..n]
  {
    hide ApplyGo, Wanted, CurOk;
    OneEdit(s, i, child, expired);
    if Top(s.threads[i]).CancelLoop? || Top(s.threads[i]).CancelEnter? {
      NewLoopFrames(s, i, child, expired);
    } else {
      NewFrames(s, i, child, expired);
    }
  }

  /** A context that is completely cancelled stays so. */
  lemma SettledStays(s: State, a: Step, c: nat)
    requires Inv(s) && Enabled(s, a) && SettledAt(s, c)
    ensures SettledAt(Apply(s, a), c)
  {
    hide Inv, ApplyGo, CancelFrames, Wanted;
    StepInv(s, a);
    if a.Go? { SettledGo(s, a.i, a.child, a.expired, c); }
  }

  lemma SettledGo(s: State, i: nat, child: nat, expired: bool, c: nat)
    requires Inv(s) && Enabled(s, Go(i, child, expired)) && SettledAt(s, c)
    ensures var s' := ApplyGo(s, i, child, expired); c < |s'.cells| && c < |s'.tree| && s'.cells[c].phase.Settled?
  {
    hide CellOk, StackInv, ChanInv, LockInv, ApplyGo, Wanted, Free;
    OneEdit(s, i, child, expired);
    SameTree(s, i, child, expired);
    if Touched(s, Top(s.threads[i])) == c {
      assert CellOk(s, c);
      TouchedSettled(s, i, child, expired);
    }
  }

  lemma TouchedSettled(s: State, i: nat, child: nat, expired: bool)
    requires Enabled(s, Go(i, child, expired))
    requires var c := Touched(s, Top(s.threads[i])); CellOk(s, c) && s.cells[c].phase.Settled?
    ensures var c := Touched(s, Top(s.threads[i])); var s' := ApplyGo(s, i, child, expired);
      c < |s'.cells| && s'.cells[c].phase.Settled?
  {
    hide Attached, Wanted, CancelFrames, KnownChildren;
  }

  // ----- a cancel call that has returned -----

  predicate CancelsAt(f: Frame, c: nat) { f.c == c && (f.CancelEnter? || f.CancelLoop?) }

  /** Goroutine i is still cancelling c, or c is completely cancelled. */
  ghost predicate Cancelling(s: State, i: nat, c: nat) {
    i < |s.threads| && (SettledAt(s, c) || exists k :: 0 <= k < |s.threads[i]| && CancelsAt(s.threads[i][k], c))
  }

  lemma CancelStarts(s: State, a: Step)
    requires Enabled(s, a) && IsCancel(a)
    ensures Cancelling(Apply(s, a), a.i, a.c)
  {
    var st := Apply(s, a).threads[a.i];
    assert CancelsAt(st[|st| - 1], a.c);
  }

  /** The top frame of a cancel call is replaced by another, or its context is settled. */
  lemma CancelTop(s: State, i: nat, child: nat, expired: bool)
    requires Inv(s) && Enabled(s, Go(i, child, expired)) && CancelsAt(Top(s.threads[i]), Top(s.threads[i]).c)
    ensures Cancelling(ApplyGo(s, i, child, expired), i, Top(s.threads[i]).c)
  {
    hide Inv, CancelFrames, StackInv, Calm, Wanted, MarkCancelled;
    TopFacts(s, i);
    var f, n := Top(s.threads[i]), |s.threads[i]| - 1;
    var s' := ApplyGo(s, i, child, expired);
    assert i < |s'.threads| by { RestKept(s, i, child, expired); }
    if f.CancelEnter? && s.cells[f.c].err.Some? {
      assert s.cells[f.c].lock.None? by { EnterIsFree(s, i, child, expired); }
      FreeMeansSettled(s, f.c);
    } else if f.CancelEnter? || f.cur.Some? || s.cells[f.c].phase.todo != {} {
      TopLoop(s, i, child, expired);
      assert CancelsAt(s'.threads[i][n], f.c);
    }
  }

  lemma EnterIsFree(s: State, i: nat, child: nat, expired: bool)
    requires Enabled(s, Go(i, child, expired)) && Top(s.threads[i]).CancelEnter?
    ensures s.cells[Top(s.threads[i]).c].lock.None?
  {
  }

  lemma TopLoop(s: State, i: nat, child: nat, expired: bool)
    requires Enabled(s, Go(i, child, expired))
    requires var f := Top(s.threads[i]);
      || (f.CancelEnter? && s.cells[f.c].err.None?)
      || (f.CancelLoop? && s.cells[f.c].phase.Looping? && (f.cur.Some? || s.cells[f.c].phase.todo != {}))
    ensures var st, n, f := ApplyGo(s, i, child, expired).threads, |s.threads[i]| - 1, Top(s.threads[i]);
      i < |st| && n < |st[i]| && st[i][n].CancelLoop? && st[i][n].c == f.c && st[i][n].err == f.err && st[i][n].remove == f.remove
  {
    hide CancelFrames, Wanted;
  }

  lemma CancelStep(s: State, a: Step, i: nat, c: nat)
    requires Inv(s) && Enabled(s, a) && Cancelling(s, i, c) && !CallsBy(a, i)
    ensures Cancelling(Apply(s, a), i, c)
  {
    hide Inv, ApplyGo, CancelFrames, Wanted, Free;
    if SettledAt(s, c) {
      SettledStays(s, a, c);
      if a.i != i { OthersKept(s, a, i); } else { RestKept(s, i, a.child, a.expired); }
    } else {
      var k :| 0 <= k < |s.threads[i]| && CancelsAt(s.threads[i][k], c);
      if a.i != i {
        OthersKept(s, a, i);
        assert CancelsAt(Apply(s, a).threads[i][k], c);
      } else if k < |s.threads[i]| - 1 {
        RestKept(s, i, a.child, a.expired);
        assert s.threads[i][..|s.threads[i]| - 1][k] == Apply(s, a).threads[i][k];
        assert CancelsAt(Apply(s, a).threads[i][k], c);
      } else {
        CancelTop(s, i, a.child, a.expired);
      }
    }
  }

  lemma {:induction false} CancelRun(s: State, steps: seq<Step>, i: nat, c: nat)
    requires Inv(s) && Runs(s, steps) && Cancelling(s, i, c)
    requires forall m | 0 <= m < |steps| :: !CallsBy(steps[m], i)
    ensures Inv(Run(s, steps)) && Cancelling(Run(s, steps), i, c)
    decreases steps
  {
    hide Inv, Apply, Enabled, Cancelling;
    if steps != [] {
      StepInv(s, steps[0]);
      CancelStep(s, steps[0], i, c);
      CancelRun(Apply(s, steps[0]), steps[1..], i, c);
    }
  }

  /** When a CancelFunc or the function of a timer has returned, whatever happened meanwhile,
      the context is cancelled, its channel closed, and so are all its descendants that have
      been made. */
  lemma CancelCompletes(s: State, a: Step, steps: seq<Step>)
    requires Reachable(s) && Enabled(s, a) && IsCancel(a) && Runs(Apply(s, a), steps)
    requires forall m | 0 <= m < |steps| :: !CallsBy(steps[m], a.i)
    requires a.i < |Run(Apply(s, a), steps).threads| && Run(Apply(s, a), steps).threads[a.i] == []
    ensures var s' := Run(Apply(s, a), steps);
      && Cancelled(s', a.c) && TreeOk(s'.tree)
      && forall d: nat | IsCtx(s', d) && s'.cells[d].finished && Ancestor(s'.tree, a.c, d) :: Cancelled(s', d)
  {
    hide Inv, Apply, Enabled, Runs, Ancestor, Reachable;
    ReachableInv(s);
    StepInv(s, a);
    CancelStarts(s, a);
    CancelRun(Apply(s, a), steps, a.i, a.c);
    var s' := Run(Apply(s, a), steps);
    SettledIsCancelled(s', a.c);
    InvTree(s');
    forall d: nat | IsCtx(s', d) && s'.cells[d].finished && Ancestor(s'.tree, a.c, d)
      ensures Cancelled(s', d)
    {
      SettledDown(s', a.c, d);
      SettledIsCancelled(s', d);
    }
  }

  lemma InvTree(s: State)
    requires Inv(s)
    ensures TreeOk(s.tree) && |s.tree| == |s.cells|
  {
    hide CellOk, ChanInv, LockInv, StackInv;
  }

  // ----- where errors come from -----

  /** The errors a step asks for directly: a CancelFunc, a timer, and a deadline that has
      passed when the context is made. */
  function AskedBy(s: State, a: Step): set<(nat, Error)>
    requires Enabled(s, a)
  {
    match a
    case CallCancel(_, c, _) => {(c, Canceled)}
    case FireTimer(_, c) => {(c, DeadlineExceeded)}
    case Go(i, _, expired) =>
      var f := Top(s.threads[i]);
      if f.PropEnd? && s.tree[f.c].timed && expired then {(f.c, DeadlineExceeded)} else {}
    case _ => {}
  }

  function Asked(s: State, steps: seq<Step>): set<(nat, Error)>
    requires Runs(s, steps)
    decreases steps
  {
    if steps == [] then {} else AskedBy(s, steps[0]) + Asked(Apply(s, steps[0]), steps[1..])
  }

  /** The error was asked for, or is the parent's. */
  ghost predicate HasCause(s: State, asked: set<(nat, Error)>, c: nat, e: Error) {
    (c, e) in asked || (HasParent(s, c) && s.cells[ParentOf(s, c)].err == Some(e))
  }

  ghost predicate FrameCause(s: State, asked: set<(nat, Error)>, f: Frame) {
    && (f.CancelEnter? ==> HasCause(s, asked, f.c, f.err))
    && (f.CancelLoop? ==> IsCtx(s, f.c) && s.cells[f.c].err == Some(f.err))
  }

  ghost predicate Caused(s: State, asked: set<(nat, Error)>) {
    && (forall c: nat | c < |s.cells| && s.cells[c].err.Some? :: HasCause(s, asked, c, s.cells[c].err.value))
    && (forall i, k | 0 <= i < |s.threads| && 0 <= k < |s.threads[i]| :: FrameCause(s, asked, s.threads[i][k]))
  }

  /** Contexts and their errors stay. */
  ghost predicate ErrsStay(s: State, s': State) {
    && |s.cells| <= |s'.cells| && |s.tree| <= |s'.tree| && s'.tree[..|s.tree|] == s.tree
    && forall c | 0 <= c < |s.cells| && s.cells[c].err.Some? :: s'.cells[c].err == s.cells[c].err
  }

  lemma StepErrs(s: State, a: Step)
    requires Inv(s) && Enabled(s, a)
    ensures ErrsStay(s, Apply(s, a))
  {
    hide Inv, ApplyGo, CancelFrames, Wanted, Free;
    InvTree(s);
    if a.Go? {
      SameTree(s, a.i, a.child, a.expired);
      OneEdit(s, a.i, a.child, a.expired);
    }
    forall c | 0 <= c < |s.cells| && s.cells[c].err.Some?
      ensures Apply(s, a).cells[c].err == s.cells[c].err
    {
      StepStable(s, a, c);
    }
  }

  lemma CauseLater(s: State, s': State, asked: set<(nat, Error)>, asked': set<(nat, Error)>, c: nat, e: Error)
    requires ErrsStay(s, s') && asked <= asked' && HasCause(s, asked, c, e)
    ensures HasCause(s', asked', c, e)
  {
    if HasParent(s, c) { assert s'.tree[..|s.tree|][c] == s'.tree[c]; }
  }

  lemma FrameCauseLater(s: State, s': State, asked: set<(nat, Error)>, asked': set<(nat, Error)>, f: Frame)
    requires ErrsStay(s, s') && asked <= asked' && FrameCause(s, asked, f)
    ensures FrameCause(s', asked', f)
  {
    hide HasCause;
    if f.CancelEnter? { CauseLater(s, s', asked, asked', f.c, f.err); }
  }

  /** The frames of a cancel call ask for the error they were given. */
  lemma CancelFramesCause(s: State, asked: set<(nat, Error)>, timed: bool, c: nat, remove: bool, err: Error)
    requires HasCause(s, asked, c, err)
    ensures forall f | f in CancelFrames(timed, c, remove, err) :: FrameCause(s, asked, f)
  {
    hide HasCause;
  }

  ghost predicate Causes(s: State, asked: set<(nat, Error)>, st: seq<Frame>, n: nat) {
    n <= |st| && forall k | n <= k < |st| :: FrameCause(s, asked, st[k])
  }

  lemma CausesOf(s: State, asked: set<(nat, Error)>, rest: seq<Frame>, front: seq<Frame>)
    requires forall f | f in front :: FrameCause(s, asked, f)
    ensures Causes(s, asked, rest + front, |rest|)
  {
    hide FrameCause;
  }

  lemma PlainCause(s: State, asked: set<(nat, Error)>, f: Frame)
    requires !f.CancelEnter? && !f.CancelLoop?
    ensures FrameCause(s, asked, f)
  {
  }

  /** Steps that put no frame of a cancel call on the stack. */
  lemma PlainCauses(s: State, asked: set<(nat, Error)>, i: nat, child: nat, expired: bool)
    requires Enabled(s, Go(i, child, expired))
    requires var f := Top(s.threads[i]); !f.CancelEnter? && !f.CancelLoop? && !f.PropErr? && !f.PropLock? && !f.PropEnd?
    ensures var s' := ApplyGo(s, i, child, expired); i < |s'.threads| && Causes(s', asked, s'.threads[i], |s.threads[i]| - 1)
  {
    hide Wanted, HasCause, CancelFrames, MarkCancelled, IsClosed, MustWait;
  }

  /** A cancel call on a context whose parent is cancelled passes the parent's error on. */
  lemma ParentCauses(s: State, asked: set<(nat, Error)>, i: nat, child: nat, expired: bool)
    requires Inv(s) && Enabled(s, Go(i, child, expired)) && (Top(s.threads[i]).PropErr? || Top(s.threads[i]).PropLock?)
    ensures var s' := ApplyGo(s, i, child, expired); i < |s'.threads| && Causes(s', asked, s'.threads[i], |s.threads[i]| - 1)
  {
    hide Inv, Wanted, HasCause, CancelFrames, FrameCause, Causes, Calm;
    var f, rest := Top(s.threads[i]), s.threads[i][..|s.threads[i]| - 1];
    var s' := ApplyGo(s, i, child, expired);
    TopFacts(s, i);
    PlainCause(s', asked, PropGo(f.c));
    PlainCause(s', asked, PropEnd(f.c));
    PlainCause(s', asked, PropHold(f.c));
    StepErrs(s, Go(i, child, expired));
    if HasParent(s, f.c) && s.cells[ParentOf(s, f.c)].err.Some? {
      var err := s.cells[ParentOf(s, f.c)].err.value;
      var frames := CancelFrames(s.tree[f.c].timed, f.c, false, err);
      ParentIsCause(s, asked, f.c);
      CauseLater(s, s', asked, asked, f.c, err);
      CancelFramesCause(s', asked, s.tree[f.c].timed, f.c, false, err);
      CausesOf(s', asked, rest, [PropEnd(f.c)] + frames);
      CausesOf(s', asked, rest, [PropHold(f.c)] + frames);
      assert rest + ([PropEnd(f.c)] + frames) == rest + [PropEnd(f.c)] + frames;
      assert rest + ([PropHold(f.c)] + frames) == rest + [PropHold(f.c)] + frames;
    } else {
      CausesOf(s', asked, rest, [PropGo(f.c)]);
      CausesOf(s', asked, rest, [PropEnd(f.c)]);
    }
  }

  lemma ParentIsCause(s: State, asked: set<(nat, Error)>, c: nat)
    requires HasParent(s, c) && s.cells[ParentOf(s, c)].err.Some?
    ensures HasCause(s, asked, c, s.cells[ParentOf(s, c)].err.value)
  {
  }

  /** A deadline that has passed. */
  lemma EndCauses(s: State, asked: set<(nat, Error)>, i: nat, child: nat, expired: bool)
    requires Enabled(s, Go(i, child, expired)) && Top(s.threads[i]).PropEnd?
    ensures var s' := ApplyGo(s, i, child, expired);
      i < |s'.threads| && Causes(s', asked + AskedBy(s, Go(i, child, expired)), s'.threads[i], |s.threads[i]| - 1)
  {
    hide Wanted, HasCause, CancelFrames, FrameCause, Causes;
    var f, rest := Top(s.threads[i]), s.threads[i][..|s.threads[i]| - 1];
    var s' := ApplyGo(s, i, child, expired);
    var asked' := asked + AskedBy(s, Go(i, child, expired));
    PlainCause(s', asked', TimerArm(f.c));
    CausesOf(s', asked', rest, [TimerArm(f.c)]);
    CausesOf(s', asked', rest, []);
    assert rest + [] == rest;
    if s.tree[f.c].timed && expired {
      AskedIsCause(s', asked', f.c, DeadlineExceeded);
      CancelFramesCause(s', asked', true, f.c, true, DeadlineExceeded);
      CausesOf(s', asked', rest, CancelFrames(true, f.c, true, DeadlineExceeded));
    }
  }

  lemma AskedIsCause(s: State, asked: set<(nat, Error)>, c: nat, e: Error)
    requires (c, e) in asked
    ensures HasCause(s, asked, c, e)
  {
  }

  /** The cancel call itself, and those of the children. */
  lemma LoopCauses(s: State, asked: set<(nat, Error)>, i: nat, child: nat, expired: bool)
    requires Inv(s) && Enabled(s, Go(i, child, expired)) && (Top(s.threads[i]).CancelEnter? || Top(s.threads[i]).CancelLoop?)
    requires FrameCause(s, asked, Top(s.threads[i]))
    ensures var s' := ApplyGo(s, i, child, expired); i < |s'.threads| && Causes(s', asked, s'.threads[i], |s.threads[i]| - 1)
  {
    hide Inv, Wanted, HasCause, CancelFrames, FrameCause, Causes, Calm;
    var f, rest := Top(s.threads[i]), s.threads[i][..|s.threads[i]| - 1];
    var s' := ApplyGo(s, i, child, expired);
    TopFacts(s, i);
    InvTree(s);
    MarkedErr(s, asked, i, child, expired);
    PlainCause(s', asked, RemoveFind(f.c, false));
    CausesOf(s', asked, rest, []);
    assert rest + [] == rest;
    CausesOf(s', asked, rest, [RemoveFind(f.c, false)]);
    if f.CancelEnter? {
      if s.cells[f.c].err.None? { CausesOf(s', asked, rest, [CancelLoop(f.c, f.remove, f.err, None)]); }
    } else if f.cur.Some? {
      CausesOf(s', asked, rest, [CancelLoop(f.c, f.remove, f.err, None)]);
    } else if s.cells[f.c].phase.todo != {} {
      var frames := CancelFrames(child < |s.tree| && s.tree[child].timed, child, false, f.err);
      TodoChild(s, f.c, child);
      ChildCause(s', asked, f.c, child, f.err);
      CancelFramesCause(s', asked, child < |s.tree| && s.tree[child].timed, child, false, f.err);
      CausesOf(s', asked, rest, [CancelLoop(f.c, f.remove, f.err, Some(child))] + frames);
      assert rest + ([CancelLoop(f.c, f.remove, f.err, Some(child))] + frames)
        == rest + [CancelLoop(f.c, f.remove, f.err, Some(child))] + frames;
    }
  }

  /** While c is being cancelled its error is that of the call. */
  lemma MarkedErr(s: State, asked: set<(nat, Error)>, i: nat, child: nat, expired: bool)
    requires Enabled(s, Go(i, child, expired)) && (Top(s.threads[i]).CancelEnter? || Top(s.threads[i]).CancelLoop?)
    requires FrameCause(s, asked, Top(s.threads[i]))
    ensures var s' := ApplyGo(s, i, child, expired); var f := Top(s.threads[i]);
      && s'.tree == s.tree && i < |s'.threads| && |s'.cells| == |s.cells|
      && (f.CancelLoop? || s.cells[f.c].err.None? ==>
            forall cur :: FrameCause(s', asked, CancelLoop(f.c, f.remove, f.err, cur)))
      && (f.CancelLoop? ==> s'.cells[f.c].err == Some(f.err))
  {
    hide Wanted, CancelFrames, HasCause;
  }

  lemma TodoChild(s: State, c: nat, child: nat)
    requires Inv(s) && IsCtx(s, c) && s.cells[c].phase.Looping? && child in s.cells[c].phase.todo
    ensures IsChild(s.tree, child, c)
  {
    hide Attached, ChanInv, LockInv, StackInv;
    assert CellOk(s, c);
  }

  lemma ChildCause(s: State, asked: set<(nat, Error)>, c: nat, child: nat, e: Error)
    requires IsChild(s.tree, child, c) && |s.tree| == |s.cells| && s.cells[c].err == Some(e)
    ensures HasCause(s, asked, child, e)
  {
  }

  /** What a step of goroutine i puts on its stack has a cause. */
  lemma NewCauses(s: State, asked: set<(nat, Error)>, i: nat, child: nat, expired: bool)
    requires Inv(s) && Enabled(s, Go(i, child, expired)) && FrameCause(s, asked, Top(s.threads[i]))
    ensures var s' := ApplyGo(s, i, child, expired);
      i < |s'.threads| && Causes(s', asked + AskedBy(s, Go(i, child, expired)), s'.threads[i], |s.threads[i]| - 1)
  {
    hide Inv, ApplyGo, FrameCause, Causes, Wanted, Free;
    var asked' := asked + AskedBy(s, Go(i, child, expired));
    match Top(s.threads[i])
    case CancelEnter(_, _, _) => LoopCauses(s, asked, i, child, expired); assert asked' == asked;
    case CancelLoop(_, _, _, _) => LoopCauses(s, asked, i, child, expired); assert asked' == asked;
    case PropErr(_, _) => ParentCauses(s, asked, i, child, expired); assert asked' == asked;
    case PropLock(_) => ParentCauses(s, asked, i, child, expired); assert asked' == asked;
    case PropEnd(_) => EndCauses(s, asked, i, child, expired);
    case _ => PlainCauses(s, asked, i, child, expired); assert asked' == asked;
  }

  lemma CallCauses(s: State, asked: set<(nat, Error)>, a: Step)
    requires Enabled(s, a) && !a.Go?
    ensures a.i < |Apply(s, a).threads| && Causes(Apply(s, a), asked + AskedBy(s, a), Apply(s, a).threads[a.i], 0)
  {
    hide HasCause, CancelFrames, FrameCause;
    var s' := Apply(s, a);
    var asked' := asked + AskedBy(s, a);
    if a.NewContext? {
      PlainCause(s', asked', PropDone(|s.tree|, false));
    } else if a.CallDone? {
      PlainCause(s', asked', DoneCall(a.c, false));
    } else {
      var err, remove := if a.CallCancel? then Canceled else DeadlineExceeded, if a.CallCancel? then a.remove else true;
      AskedIsCause(s', asked', a.c, err);
      CancelFramesCause(s', asked', s.tree[a.c].timed, a.c, remove, err);
    }
  }

  lemma StepFrameCauses(s: State, asked: set<(nat, Error)>, a: Step)
    requires Inv(s) && Caused(s, asked) && Enabled(s, a)
    ensures var s' := Apply(s, a);
      forall j, k | 0 <= j < |s'.threads| && 0 <= k < |s'.threads[j]| :: FrameCause(s', asked + AskedBy(s, a), s'.threads[j][k])
  {
    hide Inv, ApplyGo, FrameCause, HasCause, Wanted, Free, CancelFrames;
    var s' := Apply(s, a);
    var asked' := asked + AskedBy(s, a);
    StepErrs(s, a);
    if a.Go? {
      RestKept(s, a.i, a.child, a.expired);
      NewCauses(s, asked, a.i, a.child, a.expired);
    } else {
      CallCauses(s, asked, a);
    }
    forall j, k | 0 <= j < |s'.threads| && 0 <= k < |s'.threads[j]|
      ensures FrameCause(s', asked', s'.threads[j][k])
    {
      if j != a.i {
        OthersKept2(s, a, j);
        FrameCauseLater(s, s', asked, asked', s.threads[j][k]);
      } else if a.Go? && k < |s.threads[j]| - 1 {
        assert s'.threads[j][k] == s.threads[j][..|s.threads[j]| - 1][k] == s.threads[j][k];
        FrameCauseLater(s, s', asked, asked', s.threads[j][k]);
      }
    }
  }

  lemma OthersKept2(s: State, a: Step, j: nat)
    requires Enabled(s, a) && j < |Apply(s, a).threads| && j != a.i
    ensures j < |s.threads| && Apply(s, a).threads[j] == s.threads[j]
  {
    hide ApplyGo, CancelFrames, Wanted;
    if a.Go? { OneEdit(s, a.i, a.child, a.expired); }
  }

  /** An error that appears is that of the frame that marked the context. */
  lemma NewErr(s: State, asked: set<(nat, Error)>, a: Step, c: nat)
    requires Inv(s) && Caused(s, asked) && Enabled(s, a) && c < |Apply(s, a).cells|
    requires Apply(s, a).cells[c].err.Some? && (c < |s.cells| ==> s.cells[c].err.None?)
    ensures HasCause(s, asked, c, Apply(s, a).cells[c].err.value)
  {
    hide Inv, Wanted, HasCause, CancelFrames, ApplyGo, Free;
    if a.Go? {
      OneEdit(s, a.i, a.child, a.expired);
      MarkedBy(s, a.i, a.child, a.expired, c);
      assert FrameCause(s, asked, Top(s.threads[a.i]));
    }
  }

  lemma MarkedBy(s: State, i: nat, child: nat, expired: bool, c: nat)
    requires Enabled(s, Go(i, child, expired)) && c < |s.cells| && s.cells[c].err.None?
    requires var s' := ApplyGo(s, i, child, expired); c < |s'.cells| && s'.cells[c].err.Some?
    ensures var f := Top(s.threads[i]); f.CancelEnter? && f.c == c && ApplyGo(s, i, child, expired).cells[c].err == Some(f.err)
  {
    hide Wanted, CancelFrames;
  }

  lemma StepCaused(s: State, asked: set<(nat, Error)>, a: Step)
    requires Inv(s) && Caused(s, asked) && Enabled(s, a)
    ensures Caused(Apply(s, a), asked + AskedBy(s, a))
  {
    hide Inv, Apply, Enabled, HasCause, FrameCause;
    var s' := Apply(s, a);
    var asked' := asked + AskedBy(s, a);
    StepErrs(s, a);
    StepFrameCauses(s, asked, a);
    forall c: nat | c < |s'.cells| && s'.cells[c].err.Some?
      ensures HasCause(s', asked', c, s'.cells[c].err.value)
    {
      if c < |s.cells| && s.cells[c].err.Some? {
        assert s'.cells[c].err == s.cells[c].err;
      } else {
        NewErr(s, asked, a, c);
      }
      CauseLater(s, s', asked, asked', c, s'.cells[c].err.value);
    }
  }

  lemma {:induction false} RunCaused(s: State, asked: set<(nat, Error)>, steps: seq<Step>)
    requires Inv(s) && Caused(s, asked) && Runs(s, steps)
    ensures Inv(Run(s, steps)) && Caused(Run(s, steps), asked + Asked(s, steps))
    decreases steps
  {
    hide Inv, Apply, Enabled, Caused, AskedBy;
    if steps == [] {
      assert asked + {} == asked;
    } else {
      StepInv(s, steps[0]);
      StepCaused(s, asked, steps[0]);
      RunCaused(Apply(s, steps[0]), asked + AskedBy(s, steps[0]), steps[1..]);
      assert asked + AskedBy(s, steps[0]) + Asked(Apply(s, steps[0]), steps[1..]) == asked + Asked(s, steps);
    }
  }

  lemma InitCaused(count: nat)
    ensures Caused(Init(count), {})
  {
  }

  /** A context cancelled through its parent has the parent's error: every error was asked
      for that very context by a CancelFunc, its timer or its deadline, or is the parent's. */
  lemma ErrorIsAskedOrInherited(count: nat, steps: seq<Step>, c: nat)
    requires Runs(Init(count), steps) && c < |Run(Init(count), steps).cells|
    ensures var s := Run(Init(count), steps);
      s.cells[c].err.Some? ==>
        || (c, s.cells[c].err.value) in Asked(Init(count), steps)
        || (HasParent(s, c) && s.cells[ParentOf(s, c)].err == s.cells[c].err)
  {
    hide Inv, Apply, Enabled, Runs, Init, FrameCause;
    InitInv(count);
    InitCaused(count);
    RunCaused(Init(count), {}, steps);
    assert {} + Asked(Init(count), steps) == Asked(Init(count), steps);
  }

  /** So every error was asked for the context or one of its ancestors. */
  lemma {:induction false} ErrorWasAsked(count: nat, steps: seq<Step>, c: nat) returns (x: nat)
    requires Runs(Init(count), steps) && c < |Run(Init(count), steps).cells| && Run(Init(count), steps).cells[c].err.Some?
    ensures var s := Run(Init(count), steps);
      TreeOk(s.tree) && Ancestor(s.tree, x, c) && (x, s.cells[c].err.value) in Asked(Init(count), steps)
    decreases c
  {
    hide Inv, Apply, Enabled, Runs, Init;
    var s := Run(Init(count), steps);
    InitInv(count);
    RunInv(Init(count), steps);
    InvTree(s);
    ErrorIsAskedOrInherited(count, steps, c);
    if (c, s.cells[c].err.value) in Asked(Init(count), steps) {
      x := c;
    } else {
      x := ErrorWasAsked(count, steps, ParentOf(s, c));
    }
  }

  /** A cancel call that has returned leaves the error it is for, Canceled for a CancelFunc and
      DeadlineExceeded for a timer, unless the other one was asked for the context or an
      ancestor. */
  lemma CancelError(count: nat, steps: seq<Step>, k: nat)
    requires Runs(Init(count), steps) && k < |steps| && IsCancel(steps[k])
    requires forall m | k < m < |steps| :: !CallsBy(steps[m], steps[k].i)
    requires var s := Run(Init(count), steps); steps[k].i < |s.threads| && s.threads[steps[k].i] == []
    ensures var s, c := Run(Init(count), steps), steps[k].c;
      var e, other := if steps[k].CallCancel? then Canceled else DeadlineExceeded, if steps[k].CallCancel? then DeadlineExceeded else Canceled;
      && Cancelled(s, c) && TreeOk(s.tree)
      && ((forall x: nat | Ancestor(s.tree, x, c) :: (x, other) !in Asked(Init(count), steps)) ==> s.cells[c].err == Some(e))
  {
    hide Inv, Apply, Enabled, Init, Ancestor, Asked, Cancelled, Reachable;
    var s0 := SplitRun(Init(count), steps, k);
    ReachedAt(count, steps[..k], s0);
    CancelCompletes(s0, steps[k], steps[k + 1..]);
    CancelledCtx(Run(Init(count), steps), steps[k].c);
    var x := ErrorWasAsked(count, steps, steps[k].c);
    var err := Run(Init(count), steps).cells[steps[k].c].err.value;
    assert err == Canceled || err == DeadlineExceeded;
  }

  lemma CancelledCtx(s: State, c: nat)
    requires Cancelled(s, c)
    ensures IsCtx(s, c) && s.cells[c].err.Some?
  {
  }

  lemma ReachedAt(count: nat, steps: seq<Step>, s: State)
    requires Runs(Init(count), steps) && s == Run(Init(count), steps)
    ensures Reachable(s)
  {
    hide Runs, Run;
  }

  /** The state in the middle of a run. */
  lemma {:induction false} SplitRun(s: State, steps: seq<Step>, k: nat) returns (t: State)
    requires Runs(s, steps) && k < |steps|
    ensures Runs(s, steps[..k]) && t == Run(s, steps[..k]) && Enabled(t, steps[k])
    ensures Runs(Apply(t, steps[k]), steps[k + 1..]) && Run(s, steps) == Run(Apply(t, steps[k]), steps[k + 1..])
    decreases k
  {
    hide Apply, Enabled;
    if k == 0 {
      t := s;
    } else {
      t := SplitRun(Apply(s, steps[0]), steps[1..], k - 1);
      assert steps[..k][1..] == steps[1..][..k - 1] && steps[..k][0] == steps[0];
      assert steps[1..][k..] == steps[k + 1..];
    }
  }

  // ----- contexts that have been made, and their channels -----

  lemma FrameStays(s: State, a: Step, j: nat, k: nat)
    requires Enabled(s, a) && j < |s.threads| && k < |s.threads[j]| && !(a.i == j && k == |s.threads[j]| - 1)
    ensures j < |Apply(s, a).threads| && k < |Apply(s, a).threads[j]| && Apply(s, a).threads[j][k] == s.threads[j][k]
  {
    hide ApplyGo, CancelFrames, Wanted, Free;
    if j != a.i {
      OthersKept(s, a, j);
    } else {
      RestKept(s, a.i, a.child, a.expired);
      assert s.threads[j][..|s.threads[j]| - 1][k] == s.threads[j][k];
    }
  }

  /** propagateCancel for c. */
  predicate Makes(f: Frame, c: nat) {
    f.c == c && (f.PropDone? || f.PropSelect? || f.PropErr? || f.PropFind? || f.PropCheck? || f.PropLock? || f.PropHold? || f.PropGo? || f.PropEnd?)
  }

  /** Goroutine i is still making c, or c has been made. */
  ghost predicate Making(s: State, i: nat, c: nat, node: Node) {
    && i < |s.threads| && IsCtx(s, c) && s.tree[c] == node
    && (s.cells[c].finished || (s.threads[i] != [] && Makes(s.threads[i][0], c)))
  }

  lemma MakeTop(s: State, i: nat, child: nat, expired: bool)
    requires Enabled(s, Go(i, child, expired)) && |s.threads[i]| == 1 && Makes(s.threads[i][0], s.threads[i][0].c)
    ensures var s' := ApplyGo(s, i, child, expired); var c := s.threads[i][0].c;
      && i < |s'.threads| && c < |s'.cells|
      && (s'.cells[c].finished || (s'.threads[i] != [] && Makes(s'.threads[i][0], c)))
  {
    hide Wanted, CancelFrames;
  }

  lemma FinishedStays(s: State, a: Step, c: nat)
    requires Inv(s) && Enabled(s, a) && IsCtx(s, c)
    ensures var s' := Apply(s, a); IsCtx(s', c) && s'.tree[c] == s.tree[c] && (s.cells[c].finished ==> s'.cells[c].finished)
  {
    hide Inv, ApplyGo, CancelFrames, Wanted;
    InvTree(s);
    if a.Go? {
      OneEdit(s, a.i, a.child, a.expired);
      SameTree(s, a.i, a.child, a.expired);
      FinishedGo(s, a.i, a.child, a.expired);
    }
  }

  lemma FinishedGo(s: State, i: nat, child: nat, expired: bool)
    requires Enabled(s, Go(i, child, expired))
    ensures var c := Touched(s, Top(s.threads[i])); var s' := ApplyGo(s, i, child, expired);
      c < |s.cells| && c < |s'.cells| && (s.cells[c].finished ==> s'.cells[c].finished)
  {
    hide Wanted, CancelFrames;
  }

  lemma MakingStep(s: State, a: Step, i: nat, c: nat, node: Node)
    requires Inv(s) && Enabled(s, a) && Making(s, i, c, node) && !CallsBy(a, i)
    ensures Making(Apply(s, a), i, c, node)
  {
    hide Inv, ApplyGo, CancelFrames, Wanted, Free;
    FinishedStays(s, a, c);
    if a.i != i {
      OthersKept(s, a, i);
    } else {
      RestKept(s, i, a.child, a.expired);
      if !s.cells[c].finished {
        if |s.threads[i]| == 1 {
          MakeTop(s, i, a.child, a.expired);
        } else {
          FrameStays(s, a, i, 0);
        }
      }
    }
  }

  lemma {:induction false} MakingRun(s: State, steps: seq<Step>, i: nat, c: nat, node: Node)
    requires Inv(s) && Runs(s, steps) && Making(s, i, c, node)
    requires forall m | 0 <= m < |steps| :: !CallsBy(steps[m], i)
    ensures Inv(Run(s, steps)) && Making(Run(s, steps), i, c, node)
    decreases steps
  {
    hide Inv, Apply, Enabled, Making;
    if steps != [] {
      StepInv(s, steps[0]);
      MakingStep(s, steps[0], i, c, node);
      MakingRun(Apply(s, steps[0]), steps[1..], i, c, node);
    }
  }

  /** When WithCancel or WithDeadline has returned, there is the context it was asked for,
      attached to its parent: cancelled already, if the parent was. */
  lemma NewContextReturns(s: State, a: Step, steps: seq<Step>)
    requires Reachable(s) && Enabled(s, a) && a.NewContext? && Runs(Apply(s, a), steps)
    requires forall m | 0 <= m < |steps| :: !CallsBy(steps[m], a.i)
    requires a.i < |Run(Apply(s, a), steps).threads| && Run(Apply(s, a), steps).threads[a.i] == []
    ensures var s', c := Run(Apply(s, a), steps), |s.tree|;
      && IsCtx(s', c) && s'.tree[c] == Node(a.parent, a.timed) && s'.cells[c].finished && Attached(s', c)
      && (a.parent.Some? && a.parent.value < |s.cells| && SettledAt(s, a.parent.value) ==> Cancelled(s', c))
  {
    hide Inv, Enabled, Runs, Reachable;
    ReachableInv(s);
    StepInv(s, a);
    InvTree(s);
    var c := |s.tree|;
    MakingStarts(s, a);
    MakingRun(Apply(s, a), steps, a.i, c, Node(a.parent, a.timed));
    var s' := Run(Apply(s, a), steps);
    FinishedAttached(s', c);
    if a.parent.Some? && SettledAt(s, a.parent.value) {
      SettledStays(s, a, a.parent.value);
      SettledRun(Apply(s, a), steps, a.parent.value);
      InvTree(s');
      SettledIsCancelled(s', c);
    }
  }

  lemma MakingStarts(s: State, a: Step)
    requires Enabled(s, a) && a.NewContext?
    ensures Making(Apply(s, a), a.i, |s.tree|, Node(a.parent, a.timed))
  {
  }

  lemma FinishedAttached(s: State, c: nat)
    requires Inv(s) && IsCtx(s, c) && s.cells[c].finished
    ensures Attached(s, c)
  {
    hide Attached, ChanInv, LockInv, StackInv;
    assert CellOk(s, c);
  }

  lemma {:induction false} SettledRun(s: State, steps: seq<Step>, c: nat)
    requires Inv(s) && Runs(s, steps) && SettledAt(s, c)
    ensures SettledAt(Run(s, steps), c)
    decreases steps
  {
    hide Inv, Apply, Enabled, SettledAt;
    if steps != [] {
      StepInv(s, steps[0]);
      SettledStays(s, steps[0], c);
      SettledRun(Apply(s, steps[0]), steps[1..], c);
    }
  }

  /** Goroutine i is in Done of c, or the channel is there. */
  ghost predicate Asking(s: State, i: nat, c: nat) {
    i < |s.threads| && IsCtx(s, c) && (s.cells[c].done.Some? || exists wait :: s.threads[i] == [DoneCall(c, wait)])
  }

  lemma AskingStep(s: State, a: Step, i: nat, c: nat)
    requires Inv(s) && Enabled(s, a) && Asking(s, i, c) && !CallsBy(a, i)
    ensures Asking(Apply(s, a), i, c)
  {
    hide Inv, ApplyGo, CancelFrames, Wanted, Free;
    StepStable(s, a, c);
    if a.i != i {
      OthersKept(s, a, i);
    } else {
      RestKept(s, i, a.child, a.expired);
      if s.cells[c].done.None? { DoneTop(s, i, a.child, a.expired, c); }
    }
  }

  lemma DoneTop(s: State, i: nat, child: nat, expired: bool, c: nat)
    requires Enabled(s, Go(i, child, expired)) && exists wait :: s.threads[i] == [DoneCall(c, wait)]
    ensures Asking(ApplyGo(s, i, child, expired), i, c)
  {
    hide Wanted;
    var s' := ApplyGo(s, i, child, expired);
    if s'.cells[c].done.None? { assert s'.threads[i] == [DoneCall(c, true)]; }
  }

  lemma {:induction false} AskingRun(s: State, steps: seq<Step>, i: nat, c: nat)
    requires Inv(s) && Runs(s, steps) && Asking(s, i, c)
    requires forall m | 0 <= m < |steps| :: !CallsBy(steps[m], i)
    ensures Asking(Run(s, steps), i, c)
    decreases steps
  {
    hide Inv, Apply, Enabled, Asking;
    if steps != [] {
      StepInv(s, steps[0]);
      AskingStep(s, steps[0], i, c);
      AskingRun(Apply(s, steps[0]), steps[1..], i, c);
    }
  }

  /** When Done has returned the context has a channel, which by DoneAndErrStable it keeps. */
  lemma DoneReturns(s: State, a: Step, steps: seq<Step>)
    requires Reachable(s) && Enabled(s, a) && a.CallDone? && Runs(Apply(s, a), steps)
    requires forall m | 0 <= m < |steps| :: !CallsBy(steps[m], a.i)
    requires a.i < |Run(Apply(s, a), steps).threads| && Run(Apply(s, a), steps).threads[a.i] == []
    ensures var s' := Run(Apply(s, a), steps); IsCtx(s', a.c) && s'.cells[a.c].done.Some?
  {
    hide Inv, Runs, Reachable;
    ReachableInv(s);
    StepInv(s, a);
    assert Apply(s, a).threads[a.i] == [DoneCall(a.c, false)];
    AskingRun(Apply(s, a), steps, a.i, a.c);
  }

  // ----- timers -----

  /** The frame is going to arm the timer of c, or to cancel c. */
  predicate ArmsOrCancels(f: Frame, c: nat) { f.c == c && (f.TimerArm? || f.CancelEnter? || f.CancelLoop?) }

  ghost predicate Pending(s: State, c: nat) {
    exists i, k :: 0 <= i < |s.threads| && 0 <= k < |s.threads[i]| && ArmsOrCancels(s.threads[i][k], c)
  }

  ghost predicate Armed(s: State, c: nat)
    requires IsCtx(s, c)
  {
    s.cells[c].finished && s.tree[c].timed && s.cells[c].err.None? ==> s.cells[c].timer || Pending(s, c)
  }

  lemma PendingAt(s: State, c: nat, i: nat, k: nat)
    requires i < |s.threads| && k < |s.threads[i]| && ArmsOrCancels(s.threads[i][k], c)
    ensures Pending(s, c)
  {
  }

  lemma StepArmed(s: State, a: Step, c: nat)
    requires Inv(s) && Enabled(s, a) && IsCtx(Apply(s, a), c) && (IsCtx(s, c) ==> Armed(s, c))
    ensures Armed(Apply(s, a), c)
  {
    hide Inv, ApplyGo, CancelFrames, Wanted, Free, Pending;
    var s' := Apply(s, a);
    InvTree(s);
    if a.Go? { OneEdit(s, a.i, a.child, a.expired); }
    if s'.cells[c].finished && s'.cells[c].err.None? && IsCtx(s, c) {
      StepStable(s, a, c);
      FinishedStays(s, a, c);
      if s.tree[c].timed { StillArmed(s, a, c); }
    }
  }

  lemma StillArmed(s: State, a: Step, c: nat)
    requires Inv(s) && Enabled(s, a) && IsCtx(s, c) && Armed(s, c) && s.tree[c].timed && s.cells[c].err.None?
    requires IsCtx(Apply(s, a), c) && Apply(s, a).cells[c].err.None? && Apply(s, a).cells[c].finished
    ensures Apply(s, a).cells[c].timer || Pending(Apply(s, a), c)
  {
    hide Inv, ApplyGo, CancelFrames, Wanted, Free, ArmsOrCancels;
    var s' := Apply(s, a);
    if !s.cells[c].finished {
      JustFinished(s, a, c);
    } else if s.cells[c].timer {
      if a.Go? { TimerKept(s, a.i, a.child, a.expired, c); }
    } else {
      var i, k :| 0 <= i < |s.threads| && 0 <= k < |s.threads[i]| && ArmsOrCancels(s.threads[i][k], c);
      if a.i == i && k == |s.threads[i]| - 1 {
        TopArms(s, i, a.child, a.expired, c);
      } else {
        FrameStays(s, a, i, k);
        PendingAt(s', c, i, k);
      }
    }
  }

  lemma JustFinished(s: State, a: Step, c: nat)
    requires Enabled(s, a) && IsCtx(s, c) && !s.cells[c].finished && s.tree[c].timed
    requires IsCtx(Apply(s, a), c) && Apply(s, a).cells[c].finished
    ensures Pending(Apply(s, a), c)
  {
    hide Wanted, Pending, ApplyGo, CancelFrames;
    assert IsCtx(s, c);
    if a.Go? {
      hide Apply;
      assert Apply(s, a) == ApplyGo(s, a.i, a.child, a.expired) by { GoApplied(s, a); }
      if Top(s.threads[a.i]).PropEnd? {
        EndFinishes(s, a.i, a.child, a.expired, c);
      } else {
        OnlyEndFinishes(s, a.i, a.child, a.expired, c);
      }
    }
  }

  lemma GoApplied(s: State, a: Step)
    requires Enabled(s, a) && a.Go?
    ensures Apply(s, a) == ApplyGo(s, a.i, a.child, a.expired)
  {
    hide ApplyGo, Wanted, CancelFrames;
  }

  lemma OnlyEndFinishes(s: State, i: nat, child: nat, expired: bool, c: nat)
    requires Enabled(s, Go(i, child, expired)) && c < |s.cells| && !Top(s.threads[i]).PropEnd?
    ensures var s' := ApplyGo(s, i, child, expired); c < |s'.cells| && s'.cells[c].finished == s.cells[c].finished
  {
    hide CancelFrames, Wanted, ApplyGo;
    if InCancel(Top(s.threads[i])) {
      CancelFinishes(s, i, child, expired, c);
    } else {
      OthersFinish(s, i, child, expired, c);
    }
  }

  predicate InCancel(f: Frame) { f.CancelEnter? || f.CancelLoop? || f.TimerStop? || f.TimerArm? || f.PropLock? || f.PropHold? || f.RemoveLock? }

  lemma CancelFinishes(s: State, i: nat, child: nat, expired: bool, c: nat)
    requires Enabled(s, Go(i, child, expired)) && c < |s.cells| && InCancel(Top(s.threads[i]))
    ensures var s' := ApplyGo(s, i, child, expired); c < |s'.cells| && s'.cells[c].finished == s.cells[c].finished
  {
    hide CancelFrames, Wanted, IsClosed, MustWait, DoneOf;
  }

  lemma OthersFinish(s: State, i: nat, child: nat, expired: bool, c: nat)
    requires Enabled(s, Go(i, child, expired)) && c < |s.cells| && !Top(s.threads[i]).PropEnd? && !InCancel(Top(s.threads[i]))
    ensures var s' := ApplyGo(s, i, child, expired); c < |s'.cells| && s'.cells[c].finished == s.cells[c].finished
  {
    hide CancelFrames, Wanted, IsClosed, MustWait, MarkCancelled;
  }

  lemma EndFinishes(s: State, i: nat, child: nat, expired: bool, c: nat)
    requires Enabled(s, Go(i, child, expired)) && IsCtx(s, c) && Top(s.threads[i]).PropEnd? && s.tree[c].timed
    ensures var s' := ApplyGo(s, i, child, expired);
      c < |s'.cells| && (s'.cells[c].finished && !s.cells[c].finished ==> Pending(s', c))
  {
    hide Wanted, Pending;
    var s' := ApplyGo(s, i, child, expired);
    if Top(s.threads[i]).c == c {
      var st := s'.threads[i];
      assert st != [] && ArmsOrCancels(st[|st| - 1], c);
      PendingAt(s', c, i, |st| - 1);
    }
  }

  /** Only a cancelled context has its timer stopped. */
  lemma TimerKept(s: State, i: nat, child: nat, expired: bool, c: nat)
    requires Inv(s) && Enabled(s, Go(i, child, expired)) && IsCtx(s, c) && s.cells[c].timer && s.cells[c].err.None?
    ensures c < |ApplyGo(s, i, child, expired).cells| && ApplyGo(s, i, child, expired).cells[c].timer
  {
    hide Inv, ApplyGo, CancelFrames, Wanted, Free, Calm;
    TopFacts(s, i);
    OneEdit(s, i, child, expired);
    if Touched(s, Top(s.threads[i])) == c {
      if Top(s.threads[i]).TimerStop? {
        SettledIsCancelled(s, c);
      } else {
        TimerTouched(s, i, child, expired);
      }
    }
  }

  lemma TimerTouched(s: State, i: nat, child: nat, expired: bool)
    requires Enabled(s, Go(i, child, expired)) && !Top(s.threads[i]).TimerStop?
    ensures var c := Touched(s, Top(s.threads[i])); var s' := ApplyGo(s, i, child, expired);
      c < |s.cells| && c < |s'.cells| && (s.cells[c].timer ==> s'.cells[c].timer)
  {
    hide Wanted, CancelFrames;
  }

  lemma TopArms(s: State, i: nat, child: nat, expired: bool, c: nat)
    requires Inv(s) && Enabled(s, Go(i, child, expired)) && IsCtx(s, c) && s.cells[c].err.None?
    requires ArmsOrCancels(Top(s.threads[i]), c)
    ensures var s' := ApplyGo(s, i, child, expired); c < |s'.cells| && (s'.cells[c].timer || s'.cells[c].err.Some?)
  {
    hide StackInv, ChanInv, LockInv, CancelFrames, Wanted, Calm, Attached;
    TopFacts(s, i);
    assert CellOk(s, c);
  }

  lemma {:induction false} RunArmed(s: State, steps: seq<Step>)
    requires Inv(s) && Runs(s, steps) && forall c: nat | IsCtx(s, c) :: Armed(s, c)
    ensures forall c: nat | IsCtx(Run(s, steps), c) :: Armed(Run(s, steps), c)
    decreases steps
  {
    hide Inv, Apply, Enabled, Armed;
    if steps != [] {
      StepInv(s, steps[0]);
      forall c: nat | IsCtx(Apply(s, steps[0]), c)
        ensures Armed(Apply(s, steps[0]), c)
      {
        StepArmed(s, steps[0], c);
      }
      RunArmed(Apply(s, steps[0]), steps[1..]);
    }
  }

  /** A context made by WithDeadline that is not cancelled has its timer running, unless some
      goroutine is just arming it or cancelling the context. */
  lemma DeadlineArmed(s: State, c: nat)
    requires Reachable(s) && IsCtx(s, c) && s.cells[c].finished && s.tree[c].timed && s.cells[c].err.None?
    ensures s.cells[c].timer
      || exists i, k :: 0 <= i < |s.threads| && 0 <= k < |s.threads[i]| && ArmsOrCancels(s.threads[i][k], c)
  {
    hide Inv, Apply, Enabled, Init, Runs, Run, ArmsOrCancels;
    var count: nat, steps: seq<Step> :| Runs(Init(count), steps) && s == Run(Init(count), steps);
    InitInv(count);
    NoContexts(count);
    RunArmed(Init(count), steps);
    assert Armed(s, c);
  }

  lemma NoContexts(count: nat)
    ensures Init(count).cells == [] && Init(count).tree == []
  {
  }
}
