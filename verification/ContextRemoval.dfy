/** What a cancel call leaves behind in package context: a stopped timer, and a parent that
    no longer lists the context. */
module ContextRemoval {
  import opened Common
  import opened Context
  import opened ContextCalls

  // ----- contexts being made -----

  /** propagateCancel before the context is among its parent's children. */
  predicate IsEarly(f: Frame) {
    f.PropDone? || f.PropSelect? || f.PropErr? || f.PropFind? || f.PropCheck? || f.PropLock? || f.PropGo?
  }

  ghost predicate Listed(s: State, c: nat) {
    exists p :: 0 <= p < |s.cells| && ListedAt(s.cells[p], c)
  }

  predicate ListedAt(cell: Cell, c: nat) { c in cell.children || (cell.phase.Looping? && c in cell.phase.todo) }

  /** Nobody else knows c yet. */
  ghost predicate Untouched(s: State, c: nat, i: nat) {
    && IsCtx(s, c) && s.cells[c].err.None? && !s.cells[c].finished && !s.cells[c].timer && !Listed(s, c)
    && forall j, k | 0 <= j < |s.threads| && 0 <= k < |s.threads[j]| && s.threads[j][k].c == c :: j == i
  }

  ghost predicate EarlyOk(s: State) {
    forall i: nat | i < |s.threads| && |s.threads[i]| == 1 && IsEarly(s.threads[i][0]) :: Untouched(s, s.threads[i][0].c, i)
  }

  lemma CancelFramesOf(timed: bool, c: nat, remove: bool, err: Error)
    ensures forall f | f in CancelFrames(timed, c, remove, err) :: f.c == c
  {
  }

  /** From n on the frames are for c. */
  ghost predicate AllFor(st: seq<Frame>, n: nat, c: nat) { n <= |st| && forall k | n <= k < |st| :: st[k].c == c }

  lemma AllForOf(rest: seq<Frame>, front: seq<Frame>, c: nat)
    requires forall f | f in front :: f.c == c
    ensures AllFor(rest + front, |rest|, c)
  {
  }

  lemma PlainContexts(s: State, i: nat, child: nat, expired: bool)
    requires Enabled(s, Go(i, child, expired))
    requires var f := Top(s.threads[i]); !f.CancelEnter? && !f.CancelLoop? && !f.PropErr? && !f.PropLock? && !f.PropEnd?
    ensures var s' := ApplyGo(s, i, child, expired);
      i < |s'.threads| && AllFor(s'.threads[i], |s.threads[i]| - 1, Top(s.threads[i]).c)
  {
    hide Wanted, CancelFrames;
  }

  lemma CallContexts(s: State, i: nat, child: nat, expired: bool)
    requires Enabled(s, Go(i, child, expired))
    requires var f := Top(s.threads[i]); f.CancelEnter? || f.PropErr? || f.PropLock? || f.PropEnd?
    ensures var s' := ApplyGo(s, i, child, expired);
      i < |s'.threads| && AllFor(s'.threads[i], |s.threads[i]| - 1, Top(s.threads[i]).c)
  {
    hide Wanted, CancelFrames, AllFor, MarkCancelled;
    var f, rest := Top(s.threads[i]), s.threads[i][..|s.threads[i]| - 1];
    assert i < |ApplyGo(s, i, child, expired).threads| by { RestKept(s, i, child, expired); }
    assert rest + [] == rest;
    AllForOf(rest, [], f.c);
    AllForOf(rest, [PropGo(f.c)], f.c);
    AllForOf(rest, [PropEnd(f.c)], f.c);
    AllForOf(rest, [TimerArm(f.c)], f.c);
    CancelFramesOf(true, f.c, true, DeadlineExceeded);
    AllForOf(rest, CancelFrames(true, f.c, true, DeadlineExceeded), f.c);
    if f.CancelEnter? {
      AllForOf(rest, [CancelLoop(f.c, f.remove, f.err, None)], f.c);
      MarkedThreads(s, f.c, i, f.err);
    } else if HasParent(s, f.c) && s.cells[ParentOf(s, f.c)].err.Some? {
      var frames := CancelFrames(s.tree[f.c].timed, f.c, false, s.cells[ParentOf(s, f.c)].err.value);
      CancelFramesOf(s.tree[f.c].timed, f.c, false, s.cells[ParentOf(s, f.c)].err.value);
      AllForOf(rest, [PropEnd(f.c)] + frames, f.c);
      AllForOf(rest, [PropHold(f.c)] + frames, f.c);
      assert rest + ([PropEnd(f.c)] + frames) == rest + [PropEnd(f.c)] + frames;
      assert rest + ([PropHold(f.c)] + frames) == rest + [PropHold(f.c)] + frames;
    }
  }

  lemma MarkedThreads(s: State, c: nat, i: nat, err: Error)
    requires c < |s.cells|
    ensures MarkCancelled(s, c, i, err).threads == s.threads && |MarkCancelled(s, c, i, err).cells| == |s.cells|
  {
  }

  lemma LoopContexts(s: State, i: nat, child: nat, expired: bool, k: nat)
    requires Enabled(s, Go(i, child, expired)) && Top(s.threads[i]).CancelLoop?
    requires i < |ApplyGo(s, i, child, expired).threads|
    requires |s.threads[i]| - 1 <= k < |ApplyGo(s, i, child, expired).threads[i]|
    ensures var f, g := Top(s.threads[i]), ApplyGo(s, i, child, expired).threads[i][k];
      g.c == f.c || (g.c == child && s.cells[f.c].phase.Looping? && child in s.cells[f.c].phase.todo)
  {
    hide Wanted, CancelFrames;
    CancelFramesOf(child < |s.tree| && s.tree[child].timed, child, false, Top(s.threads[i]).err);
  }

  /** A step puts frames on the stack for its own context, and for a child to be cancelled. */
  lemma NewContexts(s: State, i: nat, child: nat, expired: bool, k: nat)
    requires Enabled(s, Go(i, child, expired)) && i < |ApplyGo(s, i, child, expired).threads|
    requires |s.threads[i]| - 1 <= k < |ApplyGo(s, i, child, expired).threads[i]|
    ensures var f, g := Top(s.threads[i]), ApplyGo(s, i, child, expired).threads[i][k];
      g.c == f.c || (g.c == child && f.CancelLoop? && s.cells[f.c].phase.Looping? && child in s.cells[f.c].phase.todo)
  {
    hide ApplyGo, Wanted, Free;
    match Top(s.threads[i])
    case CancelLoop(_, _, _, _) => LoopContexts(s, i, child, expired, k);
    case CancelEnter(_, _, _) => CallContexts(s, i, child, expired);
    case PropErr(_, _) => CallContexts(s, i, child, expired);
    case PropLock(_) => CallContexts(s, i, child, expired);
    case PropEnd(_) => CallContexts(s, i, child, expired);
    case _ => PlainContexts(s, i, child, expired);
  }

  /** What a step changes of a context that is not its own. */
  lemma OwnOnly(s: State, i: nat, child: nat, expired: bool, c: nat)
    requires Enabled(s, Go(i, child, expired)) && IsCtx(s, c) && Top(s.threads[i]).c != c
    requires s.cells[c].err.None? && !s.cells[c].finished && !s.cells[c].timer
    ensures var s' := ApplyGo(s, i, child, expired);
      c < |s'.cells| && s'.cells[c].err.None? && !s'.cells[c].finished && !s'.cells[c].timer
  {
    hide Wanted, CancelFrames;
  }

  predicate Lists(s: State, i: nat, c: nat)
    requires Busy(s, i)
  {
    Top(s.threads[i]).PropLock? && Top(s.threads[i]).c == c && HasParent(s, c)
  }

  /** Only the goroutine that makes c lists it. */
  lemma OwnListed(s: State, i: nat, child: nat, expired: bool, c: nat)
    requires Enabled(s, Go(i, child, expired)) && !Listed(s, c) && !Lists(s, i, c)
    ensures !Listed(ApplyGo(s, i, child, expired), c)
  {
    hide ApplyGo, CancelFrames, Wanted, Free, ListedAt;
    OneEdit(s, i, child, expired);
    var p := Touched(s, Top(s.threads[i]));
    TouchedList(s, i, child, expired, c);
    var s' := ApplyGo(s, i, child, expired);
    forall q | 0 <= q < |s'.cells|
      ensures !ListedAt(s'.cells[q], c)
    {
      if q != p { assert s'.cells[q] == s.cells[q]; }
    }
  }

  lemma TouchedList(s: State, i: nat, child: nat, expired: bool, c: nat)
    requires Enabled(s, Go(i, child, expired)) && !Lists(s, i, c)
    requires var p := Touched(s, Top(s.threads[i])); p < |s.cells| && !ListedAt(s.cells[p], c)
    ensures var p := Touched(s, Top(s.threads[i])); var s' := ApplyGo(s, i, child, expired);
      p < |s'.cells| && !ListedAt(s'.cells[p], c)
  {
    hide Wanted, CancelFrames;
  }

  /** Another goroutine leaves it alone. */
  lemma UntouchedGo(s: State, a: Step, c: nat, i: nat)
    requires Inv(s) && Enabled(s, a) && a.Go? && a.i != i && Untouched(s, c, i)
    ensures Untouched(Apply(s, a), c, i)
  {
    hide Inv, ApplyGo, CancelFrames, Wanted, Free, Listed;
    var s' := Apply(s, a);
    assert Top(s.threads[a.i]) == s.threads[a.i][|s.threads[a.i]| - 1];
    OwnOnly(s, a.i, a.child, a.expired, c);
    OwnListed(s, a.i, a.child, a.expired, c);
    FinishedStays(s, a, c);
    forall j, k | 0 <= j < |s'.threads| && 0 <= k < |s'.threads[j]| && s'.threads[j][k].c == c
      ensures j == i
    {
      if j != a.i {
        OthersKept2(s, a, j);
      } else {
        if k < |s.threads[j]| - 1 {
          FrameStays(s, a, j, k);
        } else {
          NewContexts(s, a.i, a.child, a.expired, k);
          TodoListed(s, Top(s.threads[j]).c, a.child);
        }
      }
    }
  }

  lemma TodoListed(s: State, p: nat, c: nat)
    requires p < |s.cells|
    ensures s.cells[p].phase.Looping? && c in s.cells[p].phase.todo ==> Listed(s, c)
  {
    if s.cells[p].phase.Looping? && c in s.cells[p].phase.todo { assert ListedAt(s.cells[p], c); }
  }

  /** The goroutine that makes c knows it alone until it lists it. */
  lemma EarlyGo(s: State, a: Step)
    requires Inv(s) && Enabled(s, a) && a.Go? && |s.threads[a.i]| == 1 && IsEarly(s.threads[a.i][0])
    requires Untouched(s, s.threads[a.i][0].c, a.i)
    ensures var s' := Apply(s, a);
      a.i < |s'.threads| && (|s'.threads[a.i]| == 1 && IsEarly(s'.threads[a.i][0]) ==> Untouched(s', s'.threads[a.i][0].c, a.i))
  {
    hide Inv, ApplyGo, CancelFrames, Wanted, Free, Listed, IsEarly;
    var s', f := Apply(s, a), s.threads[a.i][0];
    RestKept(s, a.i, a.child, a.expired);
    if |s'.threads[a.i]| == 1 && IsEarly(s'.threads[a.i][0]) {
      EarlyTop(s, a.i, a.child, a.expired);
      var c := f.c;
      OwnListed(s, a.i, a.child, a.expired, c);
      FinishedStays(s, a, c);
      forall j, k | 0 <= j < |s'.threads| && 0 <= k < |s'.threads[j]| && s'.threads[j][k].c == c
        ensures j == a.i
      {
        if j != a.i { OthersKept2(s, a, j); }
      }
    }
  }

  lemma EarlyTop(s: State, i: nat, child: nat, expired: bool)
    requires Enabled(s, Go(i, child, expired)) && |s.threads[i]| == 1 && IsEarly(s.threads[i][0])
    requires var s', c := ApplyGo(s, i, child, expired), s.threads[i][0].c;
      i < |s'.threads| && |s'.threads[i]| == 1 && IsEarly(s'.threads[i][0])
      && s.cells[c].err.None? && !s.cells[c].finished && !s.cells[c].timer && !Listed(s, c)
    ensures var s', c := ApplyGo(s, i, child, expired), s.threads[i][0].c;
      && s'.threads[i][0].c == c && !Lists(s, i, c)
      && c < |s'.cells| && s'.cells[c].err.None? && !s'.cells[c].finished && !s'.cells[c].timer
  {
    hide Wanted, CancelFrames, Listed;
  }

  lemma UntouchedCall(s: State, a: Step, c: nat, i: nat)
    requires Inv(s) && Enabled(s, a) && !a.Go? && a.i != i && Untouched(s, c, i)
    ensures Untouched(Apply(s, a), c, i)
  {
    hide Inv, CancelFrames, ListedAt;
    var s' := Apply(s, a);
    InvTree(s);
    if IsCancel(a) {
      CancelFramesOf(s.tree[a.c].timed, a.c, if a.CallCancel? then a.remove else true, if a.CallCancel? then Canceled else DeadlineExceeded);
    }
    NewUnlisted(s, a, c);
    forall j, k | 0 <= j < |s'.threads| && 0 <= k < |s'.threads[j]| && s'.threads[j][k].c == c
      ensures j == i
    {
      if j != a.i { assert s'.threads[j] == s.threads[j]; }
    }
  }

  lemma NewUnlisted(s: State, a: Step, c: nat)
    requires Enabled(s, a) && !a.Go? && !Listed(s, c)
    ensures !Listed(Apply(s, a), c)
  {
    var s' := Apply(s, a);
    forall q | 0 <= q < |s'.cells|
      ensures !ListedAt(s'.cells[q], c)
    {
      if q < |s.cells| { assert s'.cells[q] == s.cells[q] && !ListedAt(s.cells[q], c); }
    }
  }

  /** A new context is known to nobody else. */
  lemma EarlyNew(s: State, a: Step)
    requires Inv(s) && Enabled(s, a) && a.NewContext?
    ensures Untouched(Apply(s, a), |s.tree|, a.i)
  {
    hide Inv, ListedAt;
    var s', c := Apply(s, a), |s.tree|;
    InvTree(s);
    assert !Listed(s, c) by {
      forall q: nat | q < |s.cells|
        ensures !ListedAt(s.cells[q], c)
      {
        KnownListed(s, q, c);
      }
    }
    NewUnlisted(s, a, c);
    forall j: nat, k: nat | j < |s'.threads| && k < |s'.threads[j]| && s'.threads[j][k].c == c
      ensures j == a.i
    {
      if j != a.i { KnownFrame(s, j, k); }
    }
  }

  lemma KnownListed(s: State, q: nat, c: nat)
    requires Inv(s) && q < |s.cells| && |s.tree| == |s.cells|
    ensures ListedAt(s.cells[q], c) ==> IsChild(s.tree, c, q)
  {
    hide Attached, ChanInv, LockInv, StackInv;
    assert CellOk(s, q);
  }

  lemma KnownFrame(s: State, j: nat, k: nat)
    requires Inv(s) && j < |s.threads| && k < |s.threads[j]|
    ensures s.threads[j][k].c < |s.tree| && FrameOk(s.tree, s.threads[j][k])
  {
    hide CellOk, ChanInv, LockInv, TopOk, PhaseOk, StackOk, FrameOk;
    assert StackInv(s, s.threads[j]);
    StackFrame(s.tree, s.threads[j], k);
  }

  lemma {:induction false} StackFrame(tree: seq<Node>, st: seq<Frame>, k: nat)
    requires StackOk(tree, st) && k < |st|
    ensures FrameOk(tree, st[k]) && st[k].c < |tree|
    ensures k < |st| - 1 ==> Above(st[k], st[k + 1])
    decreases |st|
  {
    if k < |st| - 1 { StackFrame(tree, Rest(st), k); }
  }

  /** Nothing stands on propagateCancel before the context is listed. */
  lemma EarlyAlone(s: State, i: nat)
    requires Inv(s) && i < |s.threads| && |s.threads[i]| > 1
    ensures !IsEarly(s.threads[i][0])
  {
    hide CellOk, ChanInv, LockInv, TopOk, PhaseOk, StackOk, FrameOk;
    assert StackInv(s, s.threads[i]);
    StackFrame(s.tree, s.threads[i], 0);
  }

  lemma LateFrames(timed: bool, c: nat, remove: bool, err: Error)
    ensures forall f | f in CancelFrames(timed, c, remove, err) :: !IsEarly(f)
  {
  }

  lemma NotEarly(s: State, i: nat, child: nat, expired: bool)
    requires Enabled(s, Go(i, child, expired)) && |s.threads[i]| == 1 && !IsEarly(s.threads[i][0])
    ensures var s' := ApplyGo(s, i, child, expired); i < |s'.threads| && (|s'.threads[i]| == 1 ==> !IsEarly(s'.threads[i][0]))
  {
    hide Wanted, CancelFrames;
    LateFrames(true, s.threads[i][0].c, true, DeadlineExceeded);
    assert Rest(s.threads[i]) == [];
  }

  lemma StepEarly(s: State, a: Step)
    requires Inv(s) && EarlyOk(s) && Enabled(s, a)
    ensures EarlyOk(Apply(s, a))
  {
    hide Inv, ApplyGo, CancelFrames, Wanted, Free, Untouched, IsEarly;
    var s' := Apply(s, a);
    forall i: nat | i < |s'.threads| && |s'.threads[i]| == 1 && IsEarly(s'.threads[i][0])
      ensures Untouched(s', s'.threads[i][0].c, i)
    {
      if i != a.i {
        OthersKept2(s, a, i);
        if a.Go? { UntouchedGo(s, a, s.threads[i][0].c, i); } else { UntouchedCall(s, a, s.threads[i][0].c, i); }
      } else if a.Go? {
        EarlyMoves(s, a);
      } else {
        EarlyCall(s, a);
      }
    }
  }

  lemma EarlyMoves(s: State, a: Step)
    requires Inv(s) && EarlyOk(s) && Enabled(s, a) && a.Go? && a.i < |Apply(s, a).threads|
    requires |Apply(s, a).threads[a.i]| == 1 && IsEarly(Apply(s, a).threads[a.i][0])
    ensures Untouched(Apply(s, a), Apply(s, a).threads[a.i][0].c, a.i)
  {
    hide Inv, ApplyGo, CancelFrames, Wanted, Free, Untouched, IsEarly;
    if |s.threads[a.i]| > 1 {
      EarlyAlone(s, a.i);
      FrameStays(s, a, a.i, 0);
    } else if IsEarly(s.threads[a.i][0]) {
      EarlyGo(s, a);
    } else {
      NotEarly(s, a.i, a.child, a.expired);
    }
  }

  lemma EarlyCall(s: State, a: Step)
    requires Inv(s) && Enabled(s, a) && !a.Go? && a.i < |Apply(s, a).threads|
    requires |Apply(s, a).threads[a.i]| == 1 && IsEarly(Apply(s, a).threads[a.i][0])
    ensures Untouched(Apply(s, a), Apply(s, a).threads[a.i][0].c, a.i)
  {
    hide Inv, Untouched;
    if a.NewContext? { EarlyNew(s, a); }
  }

  // ----- what stands below a cancel call -----

  ghost predicate StopBelow(st: seq<Frame>, k: nat, c: nat)
    requires k <= |st|
  {
    exists l :: 0 <= l < k && st[l] == TimerStop(c)
  }

  ghost predicate RemoveBelow(st: seq<Frame>, k: nat, c: nat)
    requires k <= |st|
  {
    exists l :: 0 <= l < k && st[l].RemoveFind? && st[l].c == c
  }

  /** Cancelling c without removing it leaves nothing behind: its parent is cancelled, too, or
      it is no news. */
  ghost predicate Harmless(s: State, c: nat) {
    IsCtx(s, c) && (s.cells[c].err.Some? || (HasParent(s, c) ==> s.cells[ParentOf(s, c)].err.Some?))
  }

  predicate IsCall(f: Frame) { f.CancelEnter? || f.CancelLoop? }

  ghost predicate BelowOk(s: State, st: seq<Frame>, k: nat)
    requires k < |st|
  {
    var f := st[k];
    && (f.TimerArm? ==> IsCtx(s, f.c) && s.tree[f.c].timed)
    && (IsCall(f) && IsCtx(s, f.c) && s.tree[f.c].timed ==> StopBelow(st, k, f.c))
    && (f.CancelEnter? && !f.remove ==> Harmless(s, f.c) || RemoveBelow(st, k, f.c))
    && (f.RemoveCheck? ==> ParentChan(s, f.c, f.ch))
  }

  ghost predicate Kept(s: State, s': State) {
    && ErrsStay(s, s') && |s.tree| == |s.cells| && |s'.tree| == |s'.cells|
    && forall c | 0 <= c < |s.cells| && s.cells[c].done.Some? :: s'.cells[c].done == s.cells[c].done
  }

  lemma StepKept(s: State, a: Step)
    requires Inv(s) && Enabled(s, a)
    ensures Kept(s, Apply(s, a))
  {
    hide Inv, Apply, Enabled;
    StepErrs(s, a);
    StepInv(s, a);
    InvTree(s);
    InvTree(Apply(s, a));
    forall c | 0 <= c < |s.cells| && s.cells[c].done.Some?
      ensures Apply(s, a).cells[c].done == s.cells[c].done
    {
      StepStable(s, a, c);
    }
  }

  lemma TreeKept(s: State, s': State, c: nat)
    requires Kept(s, s') && IsCtx(s, c)
    ensures IsCtx(s', c) && s'.tree[c] == s.tree[c] && (HasParent(s, c) ==> HasParent(s', c))
  {
    assert s'.tree[..|s.tree|][c] == s'.tree[c];
  }

  lemma HarmlessLater(s: State, s': State, c: nat)
    requires Kept(s, s') && Inv(s) && Harmless(s, c)
    ensures Harmless(s', c)
  {
    hide Inv;
    TreeKept(s, s', c);
    ParentIsCtx(s, c);
    if HasParent(s, c) { TreeKept(s, s', ParentOf(s, c)); }
  }

  lemma BelowLater(s: State, s': State, st: seq<Frame>, st': seq<Frame>, k: nat)
    requires Inv(s) && Kept(s, s') && k < |st| && k < |st'| && st'[..k + 1] == st[..k + 1] && BelowOk(s, st, k)
    requires IsCtx(s, st[k].c)
    ensures BelowOk(s', st', k)
  {
    hide Inv, Harmless, Kept;
    assert forall l | 0 <= l <= k :: st'[l] == st'[..k + 1][l] == st[l];
    var f := st[k];
    TreeKept(s, s', f.c);
    SameBelow(st, st', k, f.c);
    if f.CancelEnter? && Harmless(s, f.c) { HarmlessLater(s, s', f.c); }
    if f.RemoveCheck? { ChanLater(s, s', f.c, f.ch); }
  }

  lemma SameBelow(st: seq<Frame>, st': seq<Frame>, k: nat, c: nat)
    requires k <= |st| && k <= |st'| && forall l | 0 <= l < k :: st'[l] == st[l]
    ensures StopBelow(st, k, c) ==> StopBelow(st', k, c)
    ensures RemoveBelow(st, k, c) ==> RemoveBelow(st', k, c)
  {
    if StopBelow(st, k, c) {
      var l :| 0 <= l < k && st[l] == TimerStop(c);
      assert st'[l] == TimerStop(c);
    }
    if RemoveBelow(st, k, c) {
      var l :| 0 <= l < k && st[l].RemoveFind? && st[l].c == c;
      assert st'[l].RemoveFind? && st'[l].c == c;
    }
  }

  lemma ChanLater(s: State, s': State, c: nat, ch: nat)
    requires Kept(s, s') && ParentChan(s, c, ch)
    ensures ParentChan(s', c, ch)
  {
    TreeKept(s, s', c);
  }

  /** All frames from n on. */
  ghost predicate AllBelow(s: State, st: seq<Frame>, n: nat) { n <= |st| && forall k | n <= k < |st| :: BelowOk(s, st, k) }

  lemma PlainBelow(s: State, st: seq<Frame>, k: nat)
    requires k < |st| && !st[k].TimerArm? && !IsCall(st[k]) && !st[k].RemoveCheck?
    ensures BelowOk(s, st, k)
  {
  }

  /** The frames of a cancel call: the timer is stopped and the context removed below it. */
  lemma CancelBelow(s: State, base: seq<Frame>, c: nat, remove: bool, err: Error)
    requires IsCtx(s, c) && (remove || Harmless(s, c))
    ensures AllBelow(s, base + CancelFrames(s.tree[c].timed, c, remove, err), |base|)
  {
    hide Harmless;
    var st, n := base + CancelFrames(s.tree[c].timed, c, remove, err), |base|;
    if s.tree[c].timed {
      assert st[n] == TimerStop(c);
      assert remove ==> st[n + 1] == RemoveFind(c, false);
    }
  }

  lemma JoinBelow(s: State, base: seq<Frame>, g: Frame, front: seq<Frame>)
    requires !g.TimerArm? && !IsCall(g) && !g.RemoveCheck?
    requires AllBelow(s, base + [g] + front, |base| + 1)
    ensures AllBelow(s, base + [g] + front, |base|)
  {
    var st := base + [g] + front;
    assert st[|base|] == g;
    PlainBelow(s, st, |base|);
  }

  lemma PlainGo(s: State, i: nat, child: nat, expired: bool)
    requires Enabled(s, Go(i, child, expired))
    requires var f := Top(s.threads[i]);
      !IsCall(f) && !f.PropErr? && !f.PropLock? && !f.PropEnd? && !f.RemoveFind?
    ensures var s' := ApplyGo(s, i, child, expired);
      i < |s'.threads| && AllBelow(s', s'.threads[i], |s.threads[i]| - 1)
  {
    hide Wanted, CancelFrames, StopBelow, RemoveBelow, Harmless, MarkCancelled, IsClosed, MustWait, ParentChan;
  }

  lemma FindGo(s: State, i: nat, child: nat, expired: bool)
    requires Enabled(s, Go(i, child, expired)) && Top(s.threads[i]).RemoveFind?
    ensures var s' := ApplyGo(s, i, child, expired);
      i < |s'.threads| && AllBelow(s', s'.threads[i], |s.threads[i]| - 1)
  {
    hide Wanted, CancelFrames, StopBelow, RemoveBelow, Harmless;
  }

  lemma EndGo(s: State, i: nat, child: nat, expired: bool)
    requires Inv(s) && Enabled(s, Go(i, child, expired)) && Top(s.threads[i]).PropEnd?
    ensures var s' := ApplyGo(s, i, child, expired);
      i < |s'.threads| && AllBelow(s', s'.threads[i], |s.threads[i]| - 1)
  {
    hide Inv, Wanted, CancelFrames, Harmless, StopBelow, RemoveBelow;
    var f, rest := Top(s.threads[i]), s.threads[i][..|s.threads[i]| - 1];
    var s' := ApplyGo(s, i, child, expired);
    if s.tree[f.c].timed && expired { CancelBelow(s', rest, f.c, true, DeadlineExceeded); }
  }

  /** The parent is cancelled already. */
  lemma ParentGo(s: State, i: nat, child: nat, expired: bool)
    requires Inv(s) && Enabled(s, Go(i, child, expired)) && (Top(s.threads[i]).PropErr? || Top(s.threads[i]).PropLock?)
    ensures var s' := ApplyGo(s, i, child, expired);
      i < |s'.threads| && AllBelow(s', s'.threads[i], |s.threads[i]| - 1)
  {
    hide Inv, Wanted, CancelFrames, BelowOk, Harmless, Calm;
    var f, rest := Top(s.threads[i]), s.threads[i][..|s.threads[i]| - 1];
    var s' := ApplyGo(s, i, child, expired);
    TopFacts(s, i);
    StepKept(s, Go(i, child, expired));
    if HasParent(s, f.c) && s.cells[ParentOf(s, f.c)].err.Some? {
      var err := s.cells[ParentOf(s, f.c)].err.value;
      TreeKept(s, s', f.c);
      ParentHarmless(s, s', f.c);
      var g := if f.PropErr? then PropEnd(f.c) else PropHold(f.c);
      CancelBelow(s', rest + [g], f.c, false, err);
      JoinBelow(s', rest, g, CancelFrames(s.tree[f.c].timed, f.c, false, err));
    } else {
      var g := if f.PropErr? || !HasParent(s, f.c) then PropGo(f.c) else PropEnd(f.c);
      assert s'.threads[i] == rest + [g];
      PlainBelow(s', rest + [g], |rest|);
    }
  }

  lemma ParentHarmless(s: State, s': State, c: nat)
    requires Kept(s, s') && HasParent(s, c) && s.cells[ParentOf(s, c)].err.Some?
    ensures Harmless(s', c)
  {
    TreeKept(s, s', c);
    TreeKept(s, s', ParentOf(s, c));
  }

  /** What a cancel call makes of its frame. */
  lemma LoopShape(s: State, i: nat, child: nat, expired: bool)
    requires Enabled(s, Go(i, child, expired)) && IsCall(Top(s.threads[i]))
    ensures var f, rest := Top(s.threads[i]), s.threads[i][..|s.threads[i]| - 1];
      var s' := ApplyGo(s, i, child, expired);
      && i < |s'.threads| && var st := s'.threads[i];
      || st == rest
      || st == rest + [RemoveFind(f.c, false)]
      || st == rest + [CancelLoop(f.c, f.remove, f.err, None)]
      || (f.CancelLoop? && s.cells[f.c].phase.Looping? && child in s.cells[f.c].phase.todo
          && st == rest + [CancelLoop(f.c, f.remove, f.err, Some(child))]
                   + CancelFrames(child < |s.tree| && s.tree[child].timed, child, false, f.err))
  {
    hide Wanted, CancelFrames;
  }

  /** A frame of the same call in the same place. */
  lemma LoopBelow(s: State, s': State, st: seq<Frame>, st': seq<Frame>, n: nat)
    requires Inv(s) && Kept(s, s') && n < |st| && n < |st'| && st'[..n] == st[..n] && BelowOk(s, st, n) && IsCtx(s, st[n].c)
    requires IsCall(st[n]) && st'[n].CancelLoop? && st'[n].c == st[n].c
    ensures BelowOk(s', st', n)
  {
    hide Inv, Harmless, Kept;
    assert forall l | 0 <= l < n :: st'[l] == st'[..n][l] == st[l];
    TreeKept(s, s', st[n].c);
    SameBelow(st, st', n, st[n].c);
  }

  lemma LoopJoin(s: State, base: seq<Frame>, g: Frame, front: seq<Frame>)
    requires AllBelow(s, base + [g] + front, |base| + 1) && BelowOk(s, base + [g] + front, |base|)
    ensures AllBelow(s, base + [g] + front, |base|)
  {
    hide BelowOk;
  }

  lemma MarkedParent(s: State, c: nat, child: nat)
    requires Inv(s) && IsCtx(s, c) && s.cells[c].phase.Looping? && child in s.cells[c].phase.todo
    ensures IsCtx(s, child) && HasParent(s, child) && ParentOf(s, child) == c && s.cells[c].err.Some?
  {
    hide Attached, ChanInv, LockInv, StackInv;
    assert CellOk(s, c);
  }

  /** The cancel call itself, and those of the children. */
  lemma LoopGo(s: State, i: nat, child: nat, expired: bool)
    requires Inv(s) && Enabled(s, Go(i, child, expired)) && IsCall(Top(s.threads[i]))
    requires BelowOk(s, s.threads[i], |s.threads[i]| - 1)
    ensures var s' := ApplyGo(s, i, child, expired);
      i < |s'.threads| && AllBelow(s', s'.threads[i], |s.threads[i]| - 1)
  {
    hide Inv, Wanted, Free, ApplyGo, CancelFrames, Harmless, StopBelow, RemoveBelow, Kept, BelowOk;
    var f, n := Top(s.threads[i]), |s.threads[i]| - 1;
    var rest := s.threads[i][..n];
    var s' := ApplyGo(s, i, child, expired);
    StepKept(s, Go(i, child, expired));
    LoopShape(s, i, child, expired);
    var st := s'.threads[i];
    if st == rest {
    } else if st == rest + [RemoveFind(f.c, false)] {
      PlainBelow(s', st, n);
    } else if st == rest + [CancelLoop(f.c, f.remove, f.err, None)] {
      LoopBelow(s, s', s.threads[i], st, n);
    } else {
      MarkedParent(s, f.c, child);
      ParentHarmless(s, s', child);
      TreeKept(s, s', child);
      var g := CancelLoop(f.c, f.remove, f.err, Some(child));
      LoopBelow(s, s', s.threads[i], st, n);
      CancelBelow(s', rest + [g], child, false, f.err);
      LoopJoin(s', rest, g, CancelFrames(s'.tree[child].timed, child, false, f.err));
    }
  }

  lemma NewBelow(s: State, i: nat, child: nat, expired: bool)
    requires Inv(s) && Enabled(s, Go(i, child, expired)) && BelowOk(s, s.threads[i], |s.threads[i]| - 1)
    ensures var s' := ApplyGo(s, i, child, expired);
      i < |s'.threads| && AllBelow(s', s'.threads[i], |s.threads[i]| - 1)
  {
    hide Inv, Wanted, Free, ApplyGo, AllBelow, BelowOk;
    match Top(s.threads[i])
    case CancelEnter(_, _, _) => LoopGo(s, i, child, expired);
    case CancelLoop(_, _, _, _) => LoopGo(s, i, child, expired);
    case PropErr(_, _) => ParentGo(s, i, child, expired);
    case PropLock(_) => ParentGo(s, i, child, expired);
    case PropEnd(_) => EndGo(s, i, child, expired);
    case RemoveFind(_, _) => FindGo(s, i, child, expired);
    case _ => PlainGo(s, i, child, expired);
  }

  lemma CallBelow(s: State, a: Step)
    requires Inv(s) && Enabled(s, a) && !a.Go?
    ensures a.i < |Apply(s, a).threads| && AllBelow(Apply(s, a), Apply(s, a).threads[a.i], 0)
  {
    hide Inv, CancelFrames, Harmless, StopBelow, RemoveBelow;
    var s' := Apply(s, a);
    InvTree(s);
    if IsCancel(a) {
      var remove := if a.CallCancel? then a.remove else true;
      if !remove { NoNews(s', a.c); }
      CancelBelow(s', [], a.c, remove, if a.CallCancel? then Canceled else DeadlineExceeded);
      assert [] + s'.threads[a.i] == s'.threads[a.i];
    }
  }

  lemma NoNews(s: State, c: nat)
    requires IsCtx(s, c) && s.cells[c].err.Some?
    ensures Harmless(s, c)
  {
  }

  ghost predicate StacksOk(s: State) { forall i: nat | i < |s.threads| :: AllBelow(s, s.threads[i], 0) }

  lemma StepStacks(s: State, a: Step)
    requires Inv(s) && StacksOk(s) && Enabled(s, a)
    ensures StacksOk(Apply(s, a))
  {
    hide Inv, ApplyGo, CancelFrames, Wanted, Free, BelowOk, Kept;
    var s' := Apply(s, a);
    StepKept(s, a);
    InvTree(s);
    if a.Go? { NewBelow(s, a.i, a.child, a.expired); } else { CallBelow(s, a); }
    forall i: nat, k: nat | i < |s'.threads| && k < |s'.threads[i]|
      ensures BelowOk(s', s'.threads[i], k)
    {
      if i != a.i {
        OthersKept2(s, a, i);
        KnownFrame(s, i, k);
        assert AllBelow(s, s.threads[i], 0);
        BelowLater(s, s', s.threads[i], s'.threads[i], k);
      } else if a.Go? && k < |s.threads[i]| - 1 {
        RestKept(s, a.i, a.child, a.expired);
        KnownFrame(s, i, k);
        PrefixOfPrefix(s.threads[i], s'.threads[i], |s.threads[i]| - 1, k + 1);
        BelowLater(s, s', s.threads[i], s'.threads[i], k);
      }
    }
  }

  lemma PrefixOfPrefix(a: seq<Frame>, b: seq<Frame>, n: nat, k: nat)
    requires k <= n <= |a| && n <= |b| && b[..n] == a[..n]
    ensures b[..k] == a[..k]
  {
    assert b[..n][..k] == b[..k] && a[..n][..k] == a[..k];
  }

  // ----- what is left behind -----

  /** The frame is on its way to take c off its parent's list. */
  predicate Removes(f: Frame, c: nat) {
    f.c == c && (f.RemoveFind? || f.RemoveCheck? || f.RemoveLock? || (f.CancelLoop? && f.remove))
  }

  ghost predicate Removing(s: State, c: nat) {
    exists i, k :: 0 <= i < |s.threads| && 0 <= k < |s.threads[i]| && Removes(s.threads[i][k], c)
  }

  predicate Stops(f: Frame, c: nat) { f == TimerStop(c) }

  ghost predicate Stopping(s: State, c: nat) {
    exists i, k :: 0 <= i < |s.threads| && 0 <= k < |s.threads[i]| && Stops(s.threads[i][k], c)
  }

  lemma StoppingAt(s: State, c: nat, i: nat, k: nat)
    requires i < |s.threads| && k < |s.threads[i]|
    ensures Stops(s.threads[i][k], c) ==> Stopping(s, c)
    ensures Removes(s.threads[i][k], c) ==> Removing(s, c)
  {
  }

  /** The timer of a cancelled context has been stopped or is about to be. */
  ghost predicate TimerOk(s: State, c: nat)
    requires IsCtx(s, c)
  {
    s.cells[c].timer ==> s.tree[c].timed && (s.cells[c].err.Some? ==> Stopping(s, c))
  }

  /** A cancelled context is off its parent's list, or about to be, or the parent is
      cancelled itself. */
  ghost predicate GoneOk(s: State, c: nat)
    requires IsCtx(s, c)
  {
    s.cells[c].err.Some? && HasParent(s, c) && s.cells[ParentOf(s, c)].err.None? ==>
      c !in s.cells[ParentOf(s, c)].children || Removing(s, c)
  }

  ghost predicate Tidy(s: State) {
    EarlyOk(s) && StacksOk(s) && forall c: nat | IsCtx(s, c) :: TimerOk(s, c) && GoneOk(s, c)
  }

  /** What marks c has been told what to do afterwards. */
  lemma MarkLeaves(s: State, a: Step, c: nat)
    requires Inv(s) && StacksOk(s) && Enabled(s, a) && IsCtx(s, c) && s.cells[c].err.None?
    requires c < |Apply(s, a).cells| && Apply(s, a).cells[c].err.Some?
    ensures s.tree[c].timed ==> Stopping(Apply(s, a), c)
    ensures HasParent(s, c) && s.cells[ParentOf(s, c)].err.None? ==> Removing(Apply(s, a), c)
  {
    hide Inv, Wanted, Free, ApplyGo, CancelFrames, Stopping, Removing, BelowOk, Stops, Removes;
    var s' := Apply(s, a);
    if a.Go? {
      var i := a.i;
      var st, n := s.threads[i], |s.threads[i]| - 1;
      MarkedBy(s, i, a.child, a.expired, c);
      assert AllBelow(s, st, 0);
      assert BelowOk(s, st, n);
      MarkStops(s, a, c);
      TopLoop(s, i, a.child, a.expired);
      TopRemoves(s', i, n, c);
      if !st[n].remove && HasParent(s, c) && s.cells[ParentOf(s, c)].err.None? { MarkRemoves(s, a, c); }
    }
  }

  lemma TopRemoves(s: State, i: nat, n: nat, c: nat)
    requires i < |s.threads| && n < |s.threads[i]| && s.threads[i][n].CancelLoop? && s.threads[i][n].c == c
    ensures s.threads[i][n].remove ==> Removing(s, c)
  {
    if s.threads[i][n].remove { StoppingAt(s, c, i, n); }
  }

  lemma MarkStops(s: State, a: Step, c: nat)
    requires Enabled(s, a) && a.Go? && IsCtx(s, c) && Top(s.threads[a.i]).CancelEnter? && Top(s.threads[a.i]).c == c
    requires BelowOk(s, s.threads[a.i], |s.threads[a.i]| - 1)
    ensures s.tree[c].timed ==> Stopping(Apply(s, a), c)
  {
    hide ApplyGo, CancelFrames, Wanted, Free, Harmless, Stopping;
    if s.tree[c].timed {
      var st, n := s.threads[a.i], |s.threads[a.i]| - 1;
      var l :| 0 <= l < n && st[l] == TimerStop(c);
      FrameStays(s, a, a.i, l);
      StoppingAt(Apply(s, a), c, a.i, l);
    }
  }

  lemma MarkRemoves(s: State, a: Step, c: nat)
    requires Enabled(s, a) && a.Go? && IsCtx(s, c) && Top(s.threads[a.i]).CancelEnter? && Top(s.threads[a.i]).c == c
    requires BelowOk(s, s.threads[a.i], |s.threads[a.i]| - 1) && !Top(s.threads[a.i]).remove
    requires s.cells[c].err.None? && HasParent(s, c) && s.cells[ParentOf(s, c)].err.None?
    ensures Removing(Apply(s, a), c)
  {
    hide ApplyGo, CancelFrames, Wanted, Free, Removing;
    var st, n := s.threads[a.i], |s.threads[a.i]| - 1;
    var l :| 0 <= l < n && st[l].RemoveFind? && st[l].c == c;
    FrameStays(s, a, a.i, l);
    StoppingAt(Apply(s, a), c, a.i, l);
  }

  /** A timer that is being stopped is stopped or still being stopped. */
  lemma StopsOn(s: State, a: Step, c: nat)
    requires Enabled(s, a) && IsCtx(s, c) && s.cells[c].err.Some? && Stopping(s, c)
    ensures c < |Apply(s, a).cells| && (Apply(s, a).cells[c].timer ==> Stopping(Apply(s, a), c))
  {
    hide ApplyGo, CancelFrames, Wanted, Free;
    var i, k :| 0 <= i < |s.threads| && 0 <= k < |s.threads[i]| && Stops(s.threads[i][k], c);
    if a.Go? { OneEdit(s, a.i, a.child, a.expired); }
    if a.i == i && k == |s.threads[i]| - 1 {
      StopTop(s, i, a.child, a.expired);
    } else {
      FrameStays(s, a, i, k);
      StoppingAt(Apply(s, a), c, i, k);
    }
  }

  lemma StopTop(s: State, i: nat, child: nat, expired: bool)
    requires Enabled(s, Go(i, child, expired)) && Top(s.threads[i]).TimerStop?
    ensures var c := Top(s.threads[i]).c; c < |ApplyGo(s, i, child, expired).cells| && !ApplyGo(s, i, child, expired).cells[c].timer
  {
  }

  /** A timer is armed for a context with a deadline that is not cancelled. */
  lemma ArmedBy(s: State, a: Step, c: nat)
    requires Inv(s) && StacksOk(s) && Enabled(s, a) && IsCtx(s, c) && !s.cells[c].timer
    requires c < |Apply(s, a).cells| && Apply(s, a).cells[c].timer
    ensures s.tree[c].timed && Apply(s, a).cells[c].err.None?
  {
    hide Inv, Wanted, Free, ApplyGo, CancelFrames, BelowOk;
    if a.Go? {
      OneEdit(s, a.i, a.child, a.expired);
      ArmedTouched(s, a.i, a.child, a.expired);
      assert AllBelow(s, s.threads[a.i], 0);
      assert BelowOk(s, s.threads[a.i], |s.threads[a.i]| - 1);
      TimedFrame(s, s.threads[a.i], |s.threads[a.i]| - 1);
    }
  }

  lemma TimedFrame(s: State, st: seq<Frame>, k: nat)
    requires k < |st| && BelowOk(s, st, k)
    ensures st[k].TimerArm? ==> IsCtx(s, st[k].c) && s.tree[st[k].c].timed
  {
  }

  lemma ArmedTouched(s: State, i: nat, child: nat, expired: bool)
    requires Enabled(s, Go(i, child, expired))
    ensures var c := Touched(s, Top(s.threads[i])); var s' := ApplyGo(s, i, child, expired);
      && c < |s.cells| && c < |s'.cells|
      && (!s.cells[c].timer && s'.cells[c].timer ==>
            Top(s.threads[i]).TimerArm? && Top(s.threads[i]).c == c && s'.cells[c].err.None?)
  {
    hide Wanted, CancelFrames;
  }

  lemma StepTimer(s: State, a: Step, c: nat)
    requires Inv(s) && Tidy(s) && Enabled(s, a) && IsCtx(Apply(s, a), c)
    ensures TimerOk(Apply(s, a), c)
  {
    hide Inv, ApplyGo, CancelFrames, Wanted, Free, Stopping, EarlyOk, StacksOk, Kept, GoneOk;
    var s' := Apply(s, a);
    InvTree(s);
    if a.Go? { OneEdit(s, a.i, a.child, a.expired); }
    if IsCtx(s, c) {
      StepKept(s, a);
      TreeKept(s, s', c);
      if s'.cells[c].timer {
        if !s.cells[c].timer {
          ArmedBy(s, a, c);
        } else if s'.cells[c].err.Some? {
          if s.cells[c].err.None? { MarkLeaves(s, a, c); } else { StopsOn(s, a, c); }
        }
      }
    }
  }

  /** The frame that removes c gives way to another, or c is removed. */
  lemma RemoveTop(s: State, i: nat, child: nat, expired: bool, c: nat)
    requires Inv(s) && Enabled(s, Go(i, child, expired)) && Removes(Top(s.threads[i]), c)
    requires BelowOk(s, s.threads[i], |s.threads[i]| - 1)
    requires HasParent(s, c) && s.cells[ParentOf(s, c)].err.None?
    ensures var s' := ApplyGo(s, i, child, expired); var p := ParentOf(s, c);
      p < |s'.cells| && (c !in s'.cells[p].children || Removing(s', c))
  {
    hide Inv, CancelFrames, Wanted, Calm, Removing, StopBelow, RemoveBelow, Harmless;
    TopFacts(s, i);
    var s', n := ApplyGo(s, i, child, expired), |s.threads[i]| - 1;
    OwnChannel(s, ParentOf(s, c));
    assert i < |s'.threads| by { RestKept(s, i, child, expired); }
    if !Top(s.threads[i]).RemoveLock? {
      assert n < |s'.threads[i]| && Removes(s'.threads[i][n], c);
      StoppingAt(s', c, i, n);
    }
  }

  /** The channel of a context that is not cancelled is its own. */
  lemma OwnChannel(s: State, p: nat)
    requires Inv(s) && IsCtx(s, p) && s.cells[p].err.None?
    ensures s.cells[p].done != Some(CLOSED_CHAN) && |s.closings| > 0
  {
    hide Attached, StackInv, LockInv;
    assert CellOk(s, p);
  }

  lemma RemovesOn(s: State, a: Step, c: nat)
    requires Inv(s) && StacksOk(s) && Enabled(s, a) && HasParent(s, c) && s.cells[ParentOf(s, c)].err.None? && Removing(s, c)
    ensures var s' := Apply(s, a); var p := ParentOf(s, c); p < |s'.cells| && (c !in s'.cells[p].children || Removing(s', c))
  {
    hide Inv, ApplyGo, CancelFrames, Wanted, Free, BelowOk, Removes;
    var i, k :| 0 <= i < |s.threads| && 0 <= k < |s.threads[i]| && Removes(s.threads[i][k], c);
    if a.Go? { OneEdit(s, a.i, a.child, a.expired); }
    if a.i == i && k == |s.threads[i]| - 1 {
      assert AllBelow(s, s.threads[i], 0);
      RemoveTop(s, i, a.child, a.expired, c);
    } else {
      FrameStays(s, a, i, k);
      StoppingAt(Apply(s, a), c, i, k);
    }
  }

  /** A context joins its parent's list before it can be cancelled. */
  lemma JoinsActive(s: State, a: Step, c: nat)
    requires Inv(s) && EarlyOk(s) && Enabled(s, a) && HasParent(s, c) && c !in s.cells[ParentOf(s, c)].children
    requires ParentOf(s, c) < |Apply(s, a).cells| && c in Apply(s, a).cells[ParentOf(s, c)].children
    ensures s.cells[c].err.None? && a.Go? && !Top(s.threads[a.i]).CancelEnter?
  {
    hide Inv, ApplyGo, CancelFrames, Wanted, Free, Calm, IsEarly, Listed;
    if a.Go? {
      OneEdit(s, a.i, a.child, a.expired);
      JoinTouched(s, a.i, a.child, a.expired, c);
      BottomOnly(s, a.i);
      assert |s.threads[a.i]| == 1;
      assert IsEarly(s.threads[a.i][0]) by { LockIsEarly(s.threads[a.i][0]); }
    }
  }

  lemma LockIsEarly(f: Frame)
    requires f.PropLock?
    ensures IsEarly(f)
  {
  }

  lemma JoinTouched(s: State, i: nat, child: nat, expired: bool, c: nat)
    requires Enabled(s, Go(i, child, expired))
    ensures var p := Touched(s, Top(s.threads[i])); var s' := ApplyGo(s, i, child, expired);
      && p < |s.cells| && p < |s'.cells|
      && (c !in s.cells[p].children && c in s'.cells[p].children ==> Top(s.threads[i]).PropLock? && Top(s.threads[i]).c == c)
  {
    hide Wanted, CancelFrames;
  }

  lemma StepGone(s: State, a: Step, c: nat)
    requires Inv(s) && Tidy(s) && Enabled(s, a) && IsCtx(Apply(s, a), c)
    ensures GoneOk(Apply(s, a), c)
  {
    hide Inv, ApplyGo, CancelFrames, Wanted, Free, Removing, EarlyOk, StacksOk, TimerOk, Kept;
    var s' := Apply(s, a);
    InvTree(s);
    if a.Go? { OneEdit(s, a.i, a.child, a.expired); }
    if IsCtx(s, c) {
      StepKept(s, a);
      TreeKept(s, s', c);
      ParentIsCtx(s, c);
      if s'.cells[c].err.Some? && HasParent(s, c) && s'.cells[ParentOf(s, c)].err.None? && c in s'.cells[ParentOf(s, c)].children {
        OldErr(s, s', ParentOf(s, c));
        GoneStep(s, a, c);
      }
    }
  }

  lemma OldErr(s: State, s': State, c: nat)
    requires Kept(s, s') && IsCtx(s, c)
    ensures c < |s'.cells| && (s'.cells[c].err.None? ==> s.cells[c].err.None?)
  {
  }

  lemma GoneStep(s: State, a: Step, c: nat)
    requires Inv(s) && Tidy(s) && Enabled(s, a) && HasParent(s, c) && s.cells[ParentOf(s, c)].err.None?
    requires c < |Apply(s, a).cells| && Apply(s, a).cells[c].err.Some?
    requires ParentOf(s, c) < |Apply(s, a).cells| && c in Apply(s, a).cells[ParentOf(s, c)].children
    ensures Removing(Apply(s, a), c)
  {
    hide Inv, ApplyGo, CancelFrames, Wanted, Free, Removing, EarlyOk, StacksOk, TimerOk;
    if s.cells[c].err.None? {
      MarkLeaves(s, a, c);
    } else if c in s.cells[ParentOf(s, c)].children {
      assert GoneOk(s, c);
      RemovesOn(s, a, c);
    } else {
      JoinsActive(s, a, c);
    }
  }

  lemma StepTidy(s: State, a: Step)
    requires Inv(s) && Tidy(s) && Enabled(s, a)
    ensures Tidy(Apply(s, a))
  {
    hide Inv, Apply, Enabled, TimerOk, GoneOk, EarlyOk, StacksOk;
    StepEarly(s, a);
    StepStacks(s, a);
    forall c: nat | IsCtx(Apply(s, a), c)
      ensures TimerOk(Apply(s, a), c) && GoneOk(Apply(s, a), c)
    {
      StepTimer(s, a, c);
      StepGone(s, a, c);
    }
  }

  lemma {:induction false} RunTidy(s: State, steps: seq<Step>)
    requires Inv(s) && Tidy(s) && Runs(s, steps)
    ensures Tidy(Run(s, steps))
    decreases steps
  {
    hide Inv, Apply, Enabled, Tidy;
    if steps != [] {
      StepInv(s, steps[0]);
      StepTidy(s, steps[0]);
      RunTidy(Apply(s, steps[0]), steps[1..]);
    }
  }

  lemma InitTidy(count: nat)
    ensures Tidy(Init(count))
  {
  }

  lemma ReachableTidy(s: State)
    requires Reachable(s)
    ensures Inv(s) && Tidy(s)
  {
    hide Inv, Apply, Enabled, Init, Runs, Run, Tidy;
    var count: nat, steps: seq<Step> :| Runs(Init(count), steps) && s == Run(Init(count), steps);
    InitInv(count);
    InitTidy(count);
    RunInv(Init(count), steps);
    RunTidy(Init(count), steps);
  }

  // ----- the promises -----

  /** A cancelled context has left its parent's children, unless a cancel call is just about
      to take it off or the parent is cancelled, too. */
  lemma RemovedFromParent(s: State, c: nat)
    requires Reachable(s) && HasParent(s, c) && s.cells[c].err.Some? && s.cells[ParentOf(s, c)].err.None?
    ensures c in s.cells[ParentOf(s, c)].children ==>
      exists i, k :: 0 <= i < |s.threads| && 0 <= k < |s.threads[i]| && Removes(s.threads[i][k], c)
  {
    hide Inv, Reachable, EarlyOk, StacksOk, TimerOk, Removes;
    ReachableTidy(s);
    assert GoneOk(s, c);
  }

  /** The timer of a cancelled context is stopped, unless a cancel call is just about to. */
  lemma TimerStopped(s: State, c: nat)
    requires Reachable(s) && IsCtx(s, c) && s.cells[c].err.Some? && s.cells[c].timer
    ensures exists i, k :: 0 <= i < |s.threads| && 0 <= k < |s.threads[i]| && Stops(s.threads[i][k], c)
  {
    hide Inv, Reachable, EarlyOk, StacksOk, GoneOk, Stops;
    ReachableTidy(s);
    assert TimerOk(s, c);
  }

  /** With nothing in progress: every context that is not cancelled is listed by its parent,
      and has its timer running if it has a deadline; a cancelled one is not listed by a parent
      that is not, and has no timer. */
  lemma AtRest(s: State, c: nat)
    requires Reachable(s) && IsCtx(s, c) && s.cells[c].finished
    requires forall i | 0 <= i < |s.threads| :: s.threads[i] == []
    ensures s.cells[c].timer <==> s.tree[c].timed && s.cells[c].err.None?
    ensures HasParent(s, c) && s.cells[ParentOf(s, c)].err.None? ==> (c in s.cells[ParentOf(s, c)].children <==> s.cells[c].err.None?)
  {
    hide Inv, Reachable, EarlyOk, StacksOk, Removes, Stops;
    ReachableTidy(s);
    assert TimerOk(s, c) && GoneOk(s, c);
    if s.tree[c].timed && s.cells[c].err.None? { DeadlineArmed(s, c); }
    if HasParent(s, c) && s.cells[c].err.None? && s.cells[ParentOf(s, c)].err.None? { AttachedActive(s, c); }
  }

  lemma AttachedActive(s: State, c: nat)
    requires Inv(s) && HasParent(s, c) && s.cells[c].finished && s.cells[c].err.None? && s.cells[ParentOf(s, c)].err.None?
    ensures c in s.cells[ParentOf(s, c)].children
  {
    hide LockInv, StackInv, ChanInv;
    assert CellOk(s, c) && CellOk(s, ParentOf(s, c));
  }
}
