/** expvar.Map: a concurrent map and a sorted list of its keys, updated in separate steps
    by any number of goroutines. */
module Expvar {
  import opened Common
  import opened Order

  /** A value; none of them is nil. */
  type Var = nat

  /** Where a goroutine is inside a call. Every position is followed by one atomic action:
      an operation of the sync.Map, or what is done with keysMu locked up to the next
      such operation. */
  datatype Thread =
    | Idle
    // Set(key, v), lines 160-172
    | SetLoad(key: Text, v: Var)          // line 164
    | SetLoadOrStore(key: Text, v: Var)   // line 165
    | SetStore(key: Text, v: Var)         // line 171
    // Add(key, delta) and AddFloat(key, delta), lines 175-207, v being the new Int or Float
    | AddLoad(key: Text, v: Var)          // lines 176 and 193
    | AddLoadOrStore(key: Text, v: Var)   // lines 179 and 196
    // addKey(key), lines 141-152
    | AddKey(key: Text)                   // line 142, waiting for keysMu
    // Delete(key), lines 209-217
    | DelLock(key: Text)                  // line 210, waiting for keysMu
    | DelMap(key: Text)                   // line 215, keysMu locked, key gone from the list
    // Do(f), lines 222-229
    | DoLock                              // line 223, waiting for keysMu
    | DoIter(i: nat, seen: seq<Text>)     // line 225, keysMu locked for reading; seen is history

  datatype Step = Call(i: nat, t: Thread) | Go(i: nat)

  /** late is history: the keys that line 171 stored although they were gone. */
  datatype State = State(m: map<Text, Var>, keys: seq<Text>, threads: seq<Thread>, late: set<Text>)

  predicate IsEntry(t: Thread) { t.SetLoad? || t.AddLoad? || t.DelLock? || t.DoLock? }

  /** keysMu is locked exactly by the goroutines inside its critical sections. */
  predicate Unlocked(s: State) { forall j | 0 <= j < |s.threads| :: !s.threads[j].DelMap? && !s.threads[j].DoIter? }

  predicate NoWriter(s: State) { forall j | 0 <= j < |s.threads| :: !s.threads[j].DelMap? }

  predicate Enabled(s: State, a: Step) {
    match a
    case Call(i, t) => i < |s.threads| && s.threads[i].Idle? && IsEntry(t)
    case Go(i) =>
      && i < |s.threads| && !s.threads[i].Idle?
      && (s.threads[i].AddKey? || s.threads[i].DelLock? ==> Unlocked(s))
      && (s.threads[i].DoLock? ==> NoWriter(s))
  }

  function Put(s: State, i: nat, t: Thread): State
    requires i < |s.threads|
  {
    s.(threads := s.threads[i := t])
  }

  function Apply(s: State, a: Step): State
    requires Enabled(s, a)
  {
    match a
    case Call(i, t) => Put(s, i, t)
    case Go(i) =>
      match s.threads[i]
      case SetLoad(key, v) => Put(s, i, if key in s.m then SetStore(key, v) else SetLoadOrStore(key, v))
      case SetLoadOrStore(key, v) =>
        if key in s.m then Put(s, i, SetStore(key, v)) else Put(s.(m := s.m[key := v]), i, AddKey(key))
      case SetStore(key, v) =>
        Put(s.(m := s.m[key := v], late := if key in s.m then s.late else s.late + {key}), i, Idle)
      case AddLoad(key, v) => Put(s, i, if key in s.m then Idle else AddLoadOrStore(key, v))
      case AddLoadOrStore(key, v) =>
        if key in s.m then Put(s, i, Idle) else Put(s.(m := s.m[key := v]), i, AddKey(key))
      case AddKey(key) => Put(s.(keys := WithKey(s.keys, key)), i, Idle)
      case DelLock(key) =>
        var at := SearchStrings(s.keys, key);
        if at < |s.keys| && s.keys[at] == key then Put(s.(keys := s.keys[..at] + s.keys[at + 1..]), i, DelMap(key))
        else Put(s, i, Idle)
      case DelMap(key) => Put(s.(m := s.m - {key}), i, Idle)
      case DoLock => Put(s, i, DoIter(0, []))
      case DoIter(n, seen) => Put(s, i, if n < |s.keys| then DoIter(n + 1, seen + [s.keys[n]]) else Idle)
  }

  /** Lines 145-151 */
  function WithKey(keys: seq<Text>, key: Text): seq<Text> {
    var i := SearchStrings(keys, key);
    if i >= |keys| then keys + [key]
    else if keys[i] != key then keys[..i] + [key] + keys[i..]
    else keys
  }

  function Init(count: nat): State { State(map[], [], seq(count, _ => Idle), {}) }

  // ----- the invariant -----

  /** The goroutine is about to list the key, or has just taken it off the list. */
  predicate Owns(t: Thread, key: Text) { (t.AddKey? || t.DelMap?) && t.key == key }

  ghost predicate Owned(s: State, key: Text) { exists j :: 0 <= j < |s.threads| && Owns(s.threads[j], key) }

  /** Every key of the map is listed, or in the hands of one goroutine, or was stored
      late: exactly one of the three. */
  ghost predicate Partition(s: State) {
    && (forall k | k in s.keys :: k in s.m && k !in s.late)
    && (forall k | k in s.late :: k in s.m)
    && (forall j | 0 <= j < |s.threads| && (s.threads[j].AddKey? || s.threads[j].DelMap?) ::
          s.threads[j].key in s.m && s.threads[j].key !in s.keys && s.threads[j].key !in s.late)
    && (forall j, l | 0 <= j < l < |s.threads| && Owns(s.threads[j], Key(s.threads[l])) :: !Owns(s.threads[l], Key(s.threads[l])))
    && (forall k | k in s.m :: k in s.keys || k in s.late || Owned(s, k))
  }

  function Key(t: Thread): Text { if t.Idle? || t.DoLock? || t.DoIter? then [] else t.key }

  /** Writers exclude everybody else, and an iteration has seen the list up to where it is. */
  ghost predicate Exclusion(s: State) {
    && (forall j, l | 0 <= j < |s.threads| && 0 <= l < |s.threads| && j != l && s.threads[j].DelMap? ::
          !s.threads[l].DelMap? && !s.threads[l].DoIter?)
    && (forall j | 0 <= j < |s.threads| && s.threads[j].DoIter? ::
          s.threads[j].i <= |s.keys| && s.threads[j].seen == s.keys[..s.threads[j].i])
  }

  ghost predicate Inv(s: State) { Ascending(s.keys) && Partition(s) && Exclusion(s) }

  lemma InitInv(count: nat)
    ensures Inv(Init(count))
  {
  }

  lemma WithNewKey(keys: seq<Text>, key: Text)
    requires Ascending(keys) && key !in keys
    ensures Ascending(WithKey(keys, key)) && forall y :: y in WithKey(keys, key) <==> y == key || y in keys
  {
    SearchFinds(keys, key);
    InsertedAscending(key, keys);
    var i := SearchStrings(keys, key);
    if i == |keys| { assert keys[..i] + [key] + keys[i..] == keys + [key]; }
  }

  /** Ownership after goroutine i moved. */
  lemma OwnedMoved(s: State, s': State, i: nat, k: Text)
    requires i < |s.threads| && |s'.threads| == |s.threads| && s'.threads == s.threads[i := s'.threads[i]]
    ensures Owned(s, k) && !Owns(s.threads[i], k) ==> Owned(s', k)
    ensures Owns(s'.threads[i], k) ==> Owned(s', k)
  {
    if Owned(s, k) && !Owns(s.threads[i], k) {
      var j :| 0 <= j < |s.threads| && Owns(s.threads[j], k);
      assert Owns(s'.threads[j], k);
    }
  }

  /** A step of goroutine i that touches neither list nor map, between positions that own
      nothing. */
  lemma QuietStep(s: State, i: nat, t: Thread)
    requires Inv(s) && i < |s.threads|
    requires !s.threads[i].AddKey? && !s.threads[i].DelMap? && !t.AddKey? && !t.DelMap?
    requires t.DoIter? ==> t.i <= |s.keys| && t.seen == s.keys[..t.i] && (s.threads[i].DoIter? || NoWriter(s))
    ensures Inv(Put(s, i, t))
  {
    var s' := Put(s, i, t);
    forall k | k in s.m
      ensures k in s.keys || k in s.late || Owned(s', k)
    {
      OwnedMoved(s, s', i, k);
    }
  }

  /** A new key is stored and will be listed by the same goroutine. */
  lemma StoreStep(s: State, i: nat, key: Text, v: Var)
    requires Inv(s) && i < |s.threads| && key !in s.m
    requires !s.threads[i].AddKey? && !s.threads[i].DelMap? && !s.threads[i].DoIter?
    ensures Inv(Put(s.(m := s.m[key := v]), i, AddKey(key)))
  {
    hide Less, Partition, Exclusion;
    StorePartition(s, i, key, v);
    StoreExclusion(s, i, key, v);
  }

  lemma StorePartition(s: State, i: nat, key: Text, v: Var)
    requires Partition(s) && i < |s.threads| && key !in s.m && !s.threads[i].AddKey? && !s.threads[i].DelMap?
    ensures Partition(Put(s.(m := s.m[key := v]), i, AddKey(key)))
  {
    var s' := Put(s.(m := s.m[key := v]), i, AddKey(key));
    forall k | k in s'.m
      ensures k in s.keys || k in s.late || Owned(s', k)
    {
      OwnedMoved(s, s', i, k);
    }
    hide Owned;
  }

  lemma StoreExclusion(s: State, i: nat, key: Text, v: Var)
    requires Exclusion(s) && i < |s.threads| && !s.threads[i].DelMap? && !s.threads[i].DoIter?
    ensures Exclusion(Put(s.(m := s.m[key := v]), i, AddKey(key)))
  {
  }

  /** Line 171: the key may be gone again. */
  lemma OverwriteStep(s: State, i: nat)
    requires Inv(s) && i < |s.threads| && s.threads[i].SetStore?
    ensures Inv(Apply(s, Go(i)))
  {
    var s' := Apply(s, Go(i));
    forall k | k in s'.m
      ensures k in s'.keys || k in s'.late || Owned(s', k)
    {
      OwnedMoved(s, s', i, k);
    }
  }

  lemma ListStep(s: State, i: nat)
    requires Inv(s) && Enabled(s, Go(i)) && s.threads[i].AddKey?
    ensures Inv(Apply(s, Go(i)))
  {
    var key := s.threads[i].key;
    WithNewKey(s.keys, key);
    ListPartition(s, i, key);
    hide WithKey, Partition, Less;
  }

  lemma ListPartition(s: State, i: nat, key: Text)
    requires Partition(s) && i < |s.threads| && s.threads[i] == AddKey(key)
    requires forall y :: y in WithKey(s.keys, key) <==> y == key || y in s.keys
    ensures Partition(Put(s.(keys := WithKey(s.keys, key)), i, Idle))
  {
    hide WithKey;
    var s' := Put(s.(keys := WithKey(s.keys, key)), i, Idle);
    forall k | k in s'.m
      ensures k in s'.keys || k in s'.late || Owned(s', k)
    {
      OwnedMoved(s, s', i, k);
    }
    hide Owned;
  }

  lemma UnlistStep(s: State, i: nat)
    requires Inv(s) && Enabled(s, Go(i)) && s.threads[i].DelLock? && s.threads[i].key in s.keys
    ensures Inv(Apply(s, Go(i)))
  {
    var key, at := s.threads[i].key, SearchStrings(s.keys, s.threads[i].key);
    SearchFinds(s.keys, key);
    RemovedAscending(s.keys, at);
    var keys := s.keys[..at] + s.keys[at + 1..];
    assert Apply(s, Go(i)) == Put(s.(keys := keys), i, DelMap(key));
    hide Apply, SearchStrings, Partition, Exclusion, Less, Ascending;
    UnlistPartition(s, i, key, keys);
    UnlistExclusion(s, i, key, keys);
  }

  lemma UnlistExclusion(s: State, i: nat, key: Text, keys: seq<Text>)
    requires Exclusion(s) && Unlocked(s) && i < |s.threads|
    ensures Exclusion(Put(s.(keys := keys), i, DelMap(key)))
  {
  }

  lemma UnlistPartition(s: State, i: nat, key: Text, keys: seq<Text>)
    requires Partition(s) && i < |s.threads| && s.threads[i].DelLock? && key in s.keys
    requires forall y :: y in keys <==> y in s.keys && y != key
    ensures Partition(Put(s.(keys := keys), i, DelMap(key)))
  {
    var s' := Put(s.(keys := keys), i, DelMap(key));
    forall k | k in s'.m
      ensures k in s'.keys || k in s'.late || Owned(s', k)
    {
      OwnedMoved(s, s', i, k);
    }
    hide Owned;
  }

  lemma DeleteStep(s: State, i: nat)
    requires Inv(s) && i < |s.threads| && s.threads[i].DelMap?
    ensures Inv(Apply(s, Go(i)))
  {
    var s' := Apply(s, Go(i));
    forall k | k in s'.m
      ensures k in s'.keys || k in s'.late || Owned(s', k)
    {
      OwnedMoved(s, s', i, k);
    }
  }

  /** Every step keeps the invariant. */
  lemma StepInv(s: State, a: Step)
    requires Inv(s) && Enabled(s, a)
    ensures Inv(Apply(s, a))
  {
    hide Inv, WithKey;
    if a.Go? && s.threads[a.i].SetStore? {
      OverwriteStep(s, a.i);
    } else if a.Go? && s.threads[a.i].AddKey? {
      ListStep(s, a.i);
    } else if a.Go? && s.threads[a.i].DelMap? {
      DeleteStep(s, a.i);
    } else if a.Go? && s.threads[a.i].DelLock? && s.threads[a.i].key in s.keys {
      UnlistStep(s, a.i);
    } else {
      OtherStep(s, a);
    }
  }

  lemma OtherStep(s: State, a: Step)
    requires Inv(s) && Enabled(s, a)
    requires a.Go? ==> var t := s.threads[a.i];
      !t.SetStore? && !t.AddKey? && !t.DelMap? && !(t.DelLock? && t.key in s.keys)
    ensures Inv(Apply(s, a))
  {
    hide Partition, SearchStrings;
    match a
    case Call(i, t) => QuietStep(s, i, t);
    case Go(i) =>
      match s.threads[i]
      case SetLoad(key, v) => QuietStep(s, i, if key in s.m then SetStore(key, v) else SetLoadOrStore(key, v));
      case SetLoadOrStore(key, v) =>
        if key in s.m { QuietStep(s, i, SetStore(key, v)); } else { StoreStep(s, i, key, v); }
      case AddLoad(key, v) => QuietStep(s, i, if key in s.m then Idle else AddLoadOrStore(key, v));
      case AddLoadOrStore(key, v) =>
        if key in s.m { QuietStep(s, i, Idle); } else { StoreStep(s, i, key, v); }
      case DelLock(key) =>
        SearchFinds(s.keys, key);
        QuietStep(s, i, Idle);
      case DoLock => QuietStep(s, i, DoIter(0, []));
      case DoIter(n, seen) =>
        if n < |s.keys| { assert s.keys[..n + 1] == s.keys[..n] + [s.keys[n]]; }
        QuietStep(s, i, if n < |s.keys| then DoIter(n + 1, seen + [s.keys[n]]) else Idle);
  }

  // ----- runs -----

  predicate Runs(s: State, steps: seq<Step>)
    decreases steps
  {
    steps == [] || (Enabled(s, steps[0]) && Runs(Apply(s, steps[0]), steps[1..]))
  }

  function Run(s: State, steps: seq<Step>): State
    requires Runs(s, steps)
    decreases steps
  {
    if steps == [] then s else Run(Apply(s, steps[0]), steps[1..])
  }

  lemma {:induction false} RunInv(s: State, steps: seq<Step>)
    requires Inv(s) && Runs(s, steps)
    ensures Inv(Run(s, steps))
    decreases steps
  {
    hide Inv, Enabled, Apply;
    if steps != [] {
      StepInv(s, steps[0]);
      RunInv(Apply(s, steps[0]), steps[1..]);
    }
  }

  ghost predicate Reachable(s: State) { exists count: nat, steps: seq<Step> :: Runs(Init(count), steps) && Run(Init(count), steps) == s }

  lemma ReachableInv(s: State)
    requires Reachable(s)
    ensures Inv(s)
  {
    hide Inv;
    var count: nat, steps: seq<Step> :| Runs(Init(count), steps) && Run(Init(count), steps) == s;
    InitInv(count);
    RunInv(Init(count), steps);
  }

  // ----- what it means for the callers -----

  /** In every interleaving the list is sorted without duplicates, and every listed key is
      in the map, also while a Delete is between its two updates. */
  lemma ListedArePresent(s: State, k: Text)
    requires Reachable(s)
    ensures Ascending(s.keys) && (k in s.keys ==> k in s.m)
  {
    ReachableInv(s);
  }

  /** Do never meets a missing entry (line 227 would panic), and visits the keys listed
      when it took the lock in ascending order, each once. */
  lemma DoVisits(s: State, i: nat)
    requires Reachable(s) && i < |s.threads| && s.threads[i].DoIter?
    ensures var t := s.threads[i];
      && t.i <= |s.keys| && t.seen == s.keys[..t.i]
      && (t.i < |s.keys| ==> s.keys[t.i] in s.m)
  {
    ReachableInv(s);
  }

  /** The list stands still while some Do is running. */
  lemma DoExcludes(s: State, i: nat, a: Step)
    requires Enabled(s, a) && i < |s.threads| && s.threads[i].DoIter?
    ensures Apply(s, a).keys == s.keys
  {
  }

  predicate Quiet(s: State) { forall j | 0 <= j < |s.threads| :: s.threads[j].Idle? }

  lemma QuietLate(s: State)
    requires Reachable(s) && Quiet(s)
    ensures (forall k :: k in s.keys <==> k in s.m) <==> s.late == {}
    ensures forall k :: k in s.m && k !in s.keys <==> k in s.late
  {
    ReachableInv(s);
    assert forall k :: !Owned(s, k);
    if s.late != {} {
      var k :| k in s.late;
      assert k in s.m && k !in s.keys;
    }
  }

  /** Such a key is lost for good: nothing lists it again and nothing removes it. */
  lemma LateForever(s: State, a: Step, k: Text)
    requires Inv(s) && Enabled(s, a) && k in s.late
    ensures k in Apply(s, a).late && k in Apply(s, a).m && k !in Apply(s, a).keys
  {
    StepInv(s, a);
    hide WithKey, SearchStrings;
  }

  // ----- complete lists, in terms of the calls -----

  /** A run with all its states. */
  ghost predicate Trace(ss: seq<State>, steps: seq<Step>) {
    && |ss| == |steps| + 1
    && forall n | 0 <= n < |steps| :: Enabled(ss[n], steps[n]) && ss[n + 1] == Apply(ss[n], steps[n])
  }

  function States(s: State, steps: seq<Step>): (ss: seq<State>)
    requires Runs(s, steps)
    ensures |ss| == |steps| + 1 && ss[0] == s
    decreases steps
  {
    if steps == [] then [s] else [s] + States(Apply(s, steps[0]), steps[1..])
  }

  lemma {:induction false} StatesTrace(s: State, steps: seq<Step>)
    requires Runs(s, steps)
    ensures Trace(States(s, steps), steps) && States(s, steps)[|steps|] == Run(s, steps)
    decreases steps
  {
    hide Enabled, Apply;
    if steps != [] {
      var tail := States(Apply(s, steps[0]), steps[1..]);
      StatesTrace(Apply(s, steps[0]), steps[1..]);
      var ss := States(s, steps);
      assert ss == [s] + tail;
      forall n | 0 <= n < |steps|
        ensures Enabled(ss[n], steps[n]) && ss[n + 1] == Apply(ss[n], steps[n])
      {
        if n > 0 { assert ss[n] == tail[n - 1] && steps[n] == steps[1..][n - 1] && ss[n + 1] == tail[n]; }
      }
    }
  }

  /** Step n is a look of goroutine i, inside Set(k), that finds the key. */
  predicate Finds(ss: seq<State>, steps: seq<Step>, n: nat, i: nat, k: Text)
    requires n < |steps| && n < |ss|
  {
    && steps[n] == Go(i) && i < |ss[n].threads| && k in ss[n].m
    && (ss[n].threads[i].SetLoad? || ss[n].threads[i].SetLoadOrStore?) && ss[n].threads[i].key == k
  }

  /** Step n is the removal of k from the map, in Delete(k). */
  predicate Deletes(ss: seq<State>, steps: seq<Step>, n: nat, k: Text)
    requires n < |steps| && n < |ss|
  {
    steps[n].Go? && steps[n].i < |ss[n].threads| && ss[n].threads[steps[n].i] == DelMap(k)
  }

  /** Step n stores k: the Store of Set, or a LoadOrStore that did not find it. */
  predicate Stores(ss: seq<State>, steps: seq<Step>, n: nat, k: Text)
    requires n < |steps| && n < |ss|
  {
    && steps[n].Go? && steps[n].i < |ss[n].threads|
    && var t := ss[n].threads[steps[n].i];
      || (t.SetStore? && t.key == k)
      || ((t.SetLoadOrStore? || t.AddLoadOrStore?) && t.key == k && k !in ss[n].m)
  }

  /** A Set(k) of goroutine i that finds the key in step x and stores it in step z, its next,
      is overtaken by a Delete(k) that takes effect in step y, nobody storing k in between. */
  ghost predicate Overtaken(ss: seq<State>, steps: seq<Step>, x: nat, y: nat, z: nat, i: nat, k: Text) {
    && x < y < z < |steps| < |ss|
    && Finds(ss, steps, x, i, k) && (forall n | x < n < z :: steps[n] != Go(i))
    && Deletes(ss, steps, y, k) && (forall n | y < n < z :: !Stores(ss, steps, n, k))
    && steps[z] == Go(i) && Stores(ss, steps, z, k) && ss[z].threads[i].SetStore?
  }

  ghost predicate SomeOvertaken(ss: seq<State>, steps: seq<Step>) {
    exists x: nat, y: nat, z: nat, i: nat, k: Text :: Overtaken(ss, steps, x, y, z, i, k)
  }

  /** Only Delete removes a key, and only a storing step adds one. */
  lemma KeyChange(s: State, a: Step, k: Text)
    requires Enabled(s, a)
    ensures var s' := Apply(s, a);
      && (k in s.m && k !in s'.m ==> a.Go? && s.threads[a.i] == DelMap(k))
      && (a.Go? && s.threads[a.i] == DelMap(k) ==> k !in s'.m)
      && (k !in s.m && k in s'.m <==> k !in s.m && a.Go? && var t := s.threads[a.i];
            (t.SetStore? || t.SetLoadOrStore? || t.AddLoadOrStore?) && t.key == k)
      && s.late <= s'.late
      && (k in s'.late && k !in s.late <==> k !in s.late && a.Go? && s.threads[a.i].SetStore? && s.threads[a.i].key == k && k !in s.m)
  {
    hide SearchStrings, WithKey;
  }

  lemma {:induction false} LateStays(ss: seq<State>, steps: seq<Step>, n: nat, m: nat)
    requires Trace(ss, steps) && n <= m <= |steps|
    ensures ss[n].late <= ss[m].late
    decreases m
  {
    hide Apply, Enabled;
    if n < m {
      LateStays(ss, steps, n, m - 1);
      KeyChange(ss[m - 1], steps[m - 1], []);
    }
  }

  /** After it is deleted, and while nobody stores it, the key is absent. */
  lemma {:induction false} Absent(ss: seq<State>, steps: seq<Step>, y: nat, n: nat, k: Text)
    requires Trace(ss, steps) && y < n <= |steps| && Deletes(ss, steps, y, k)
    requires forall t | y < t < n :: !Stores(ss, steps, t, k)
    ensures k !in ss[n].m
    decreases n
  {
    hide Apply;
    KeyChange(ss[n - 1], steps[n - 1], k);
    if n - 1 > y {
      Absent(ss, steps, y, n - 1, k);
      assert !Stores(ss, steps, n - 1, k);
    }
  }

  /** A Set about to store has found the key, and has not moved since. */
  lemma {:induction false} Looked(ss: seq<State>, steps: seq<Step>, z: nat, i: nat) returns (x: nat)
    requires Trace(ss, steps) && z <= |steps| && i < |ss[z].threads| && ss[z].threads[i].SetStore?
    requires forall j | 0 <= j < |ss[0].threads| :: ss[0].threads[j].Idle?
    ensures x < z && Finds(ss, steps, x, i, ss[z].threads[i].key)
    ensures forall n | x < n < z :: steps[n] != Go(i)
    decreases z
  {
    hide SearchStrings, WithKey;
    x := z;
    if z > 0 {
      var a := steps[z - 1];
      hide Apply;
      LookedStep(ss[z - 1], a, i);
      if a == Go(i) {
        x := z - 1;
      } else {
        x := Looked(ss, steps, z - 1, i);
      }
    }
  }

  lemma LookedStep(s: State, a: Step, i: nat)
    requires Enabled(s, a) && i < |Apply(s, a).threads| && Apply(s, a).threads[i].SetStore?
    ensures i < |s.threads|
    ensures a != Go(i) ==> Apply(s, a).threads[i] == s.threads[i]
    ensures a == Go(i) ==> var t := s.threads[i];
      (t.SetLoad? || t.SetLoadOrStore?) && t.key == Apply(s, a).threads[i].key && t.key in s.m
  {
    hide SearchStrings, WithKey;
  }

  /** The last removal of a key that was there and is gone. */
  lemma {:induction false} LastRemoval(ss: seq<State>, steps: seq<Step>, x: nat, z: nat, k: Text) returns (y: nat)
    requires Trace(ss, steps) && x < z <= |steps| && k in ss[x].m && k !in ss[z].m
    ensures x <= y < z && Deletes(ss, steps, y, k) && forall n | y < n < z :: !Stores(ss, steps, n, k)
    decreases z
  {
    hide Apply;
    KeyChange(ss[z - 1], steps[z - 1], k);
    if k in ss[z - 1].m {
      y := z - 1;
    } else {
      y := LastRemoval(ss, steps, x, z - 1, k);
    }
  }

  /** Where the first key was stored late. */
  lemma {:induction false} FirstLate(ss: seq<State>, steps: seq<Step>, n: nat) returns (z: nat, k: Text)
    requires Trace(ss, steps) && n <= |steps| && ss[0].late == {} && ss[n].late != {}
    ensures z < n && k in ss[z + 1].late && k !in ss[z].late
    decreases n
  {
    if ss[n - 1].late == {} {
      z := n - 1;
      k :| k in ss[n].late;
    } else {
      z, k := FirstLate(ss, steps, n - 1);
    }
  }

  lemma LateOvertaken(ss: seq<State>, steps: seq<Step>)
    requires Trace(ss, steps) && ss[0].late == {} && ss[|steps|].late != {}
    requires forall j | 0 <= j < |ss[0].threads| :: ss[0].threads[j].Idle?
    ensures SomeOvertaken(ss, steps)
  {
    hide Apply;
    var z, k := FirstLate(ss, steps, |steps|);
    KeyChange(ss[z], steps[z], k);
    var i := steps[z].i;
    var x := Looked(ss, steps, z, i);
    var y := LastRemoval(ss, steps, x, z, k);
    assert y != x;
    assert Overtaken(ss, steps, x, y, z, i, k);
  }

  lemma OvertakenLate(ss: seq<State>, steps: seq<Step>)
    requires Trace(ss, steps) && SomeOvertaken(ss, steps)
    ensures ss[|steps|].late != {}
  {
    hide Apply;
    var x: nat, y: nat, z: nat, i: nat, k: Text :| Overtaken(ss, steps, x, y, z, i, k);
    Absent(ss, steps, y, z, k);
    KeyChange(ss[z], steps[z], k);
    assert k in ss[z + 1].late;
    LateStays(ss, steps, z + 1, |steps|);
  }

  /** A run that ends with no call in progress leaves the list with exactly the keys of the
      map, so that Do visits every entry, if and only if no Set was overtaken by a Delete. */
  lemma QuietIff(count: nat, steps: seq<Step>)
    requires Runs(Init(count), steps) && Quiet(Run(Init(count), steps))
    ensures var s := Run(Init(count), steps);
      (forall k :: k in s.keys <==> k in s.m) <==> !SomeOvertaken(States(Init(count), steps), steps)
  {
    hide Overtaken, Trace;
    var ss := States(Init(count), steps);
    StatesTrace(Init(count), steps);
    assert Reachable(Run(Init(count), steps));
    QuietLate(Run(Init(count), steps));
    if SomeOvertaken(ss, steps) {
      OvertakenLate(ss, steps);
    } else if ss[|steps|].late != {} {
      LateOvertaken(ss, steps);
    }
  }

  /** In particular the list is complete after every run without Delete. */
  lemma CompleteWithoutDelete(count: nat, steps: seq<Step>)
    requires Runs(Init(count), steps) && Quiet(Run(Init(count), steps))
    requires forall n | 0 <= n < |steps| && steps[n].Call? :: !steps[n].t.DelLock?
    ensures var s := Run(Init(count), steps); forall k :: k in s.keys <==> k in s.m
  {
    hide Runs, Run, Quiet;
    var ss := States(Init(count), steps);
    StatesTrace(Init(count), steps);
    forall x: nat, y: nat, z: nat, i: nat, k: Text
      ensures !Overtaken(ss, steps, x, y, z, i, k)
    {
      if y < |steps| { NoDelete(ss, steps, y); }
    }
    QuietIff(count, steps);
  }

  lemma {:induction false} NoDelete(ss: seq<State>, steps: seq<Step>, n: nat)
    requires Trace(ss, steps) && n <= |steps| && forall j | 0 <= j < |ss[0].threads| :: ss[0].threads[j].Idle?
    requires forall n | 0 <= n < |steps| && steps[n].Call? :: !steps[n].t.DelLock?
    ensures forall j | 0 <= j < |ss[n].threads| :: !ss[n].threads[j].DelLock? && !ss[n].threads[j].DelMap?
    decreases n
  {
    hide Apply, Enabled;
    if n > 0 {
      NoDelete(ss, steps, n - 1);
      assert steps[n - 1].Call? ==> !steps[n - 1].t.DelLock?;
      NoDeleteStep(ss[n - 1], steps[n - 1]);
    }
  }

  lemma NoDeleteStep(s: State, a: Step)
    requires Enabled(s, a) && (a.Call? ==> !a.t.DelLock?)
    requires forall j | 0 <= j < |s.threads| :: !s.threads[j].DelLock? && !s.threads[j].DelMap?
    ensures forall j | 0 <= j < |Apply(s, a).threads| :: !Apply(s, a).threads[j].DelLock? && !Apply(s, a).threads[j].DelMap?
  {
    hide SearchStrings, WithKey;
  }

  lemma {:induction false} RunsSnoc(s: State, steps: seq<Step>, a: Step)
    requires Runs(s, steps) && Enabled(Run(s, steps), a)
    ensures Runs(s, steps + [a]) && Run(s, steps + [a]) == Apply(Run(s, steps), a)
    decreases steps
  {
    hide Enabled, Apply;
    if steps == [] {
      assert steps + [a] == [a] && [a][1..] == [];
    } else {
      assert (steps + [a])[1..] == steps[1..] + [a];
      RunsSnoc(Apply(s, steps[0]), steps[1..], a);
    }
  }

  lemma ReachStep(s: State, a: Step) returns (s': State)
    requires Reachable(s) && Enabled(s, a)
    ensures s' == Apply(s, a) && Reachable(s')
  {
    hide Enabled, Apply;
    var count: nat, steps: seq<Step> :| Runs(Init(count), steps) && Run(Init(count), steps) == s;
    RunsSnoc(Init(count), steps, a);
    s' := Apply(s, a);
  }

  /** It does happen: Set finds the key, Delete removes it, Set stores it. */
  lemma LateExample() returns (s: State)
    ensures Reachable(s) && Quiet(s) && s.keys == [] && s.late == {[97]}
  {
    hide Reachable;
    var k: Text := [97];
    s := FirstSet(k);
    s := ReachStep(s, Call(0, SetLoad(k, 2)));
    s := ReachStep(s, Go(0));
    assert s == State(map[k := 1], [k], [SetStore(k, 2), Idle], {});
    s := DeleteMeanwhile(s, k);
    s := ReachStep(s, Go(0));
  }

  lemma FirstSet(k: Text) returns (s: State)
    ensures Reachable(s) && s == State(map[k := 1], [k], [Idle, Idle], {})
  {
    hide Reachable;
    s := Start(2);
    s := ReachStep(s, Call(0, SetLoad(k, 1)));
    s := ReachStep(s, Go(0));
    s := ReachStep(s, Go(0));
    assert s == State(map[k := 1], [], [AddKey(k), Idle], {});
    s := ReachStep(s, Go(0));
  }

  lemma DeleteMeanwhile(s0: State, k: Text) returns (s: State)
    requires Reachable(s0) && s0 == State(map[k := 1], [k], [SetStore(k, 2), Idle], {})
    ensures Reachable(s) && s == State(map[], [], [SetStore(k, 2), Idle], {})
  {
    hide Reachable;
    s := ReachStep(s0, Call(1, DelLock(k)));
    LessTotal(k, k);
    s := ReachStep(s, Go(1));
    assert s == State(map[k := 1], [], [SetStore(k, 2), DelMap(k)], {});
    s := ReachStep(s, Go(1));
  }

  lemma Start(count: nat) returns (s: State)
    ensures s == Init(count) && Reachable(s)
  {
    s := Init(count);
    assert Runs(s, []) && Run(s, []) == s;
  }

  /** No deadlock: while some call is in progress, some goroutine can take a step. */
  lemma NoDeadlock(s: State, i: nat) returns (j: nat)
    requires i < |s.threads| && !s.threads[i].Idle?
    ensures Enabled(s, Go(j))
  {
    if j0 :| 0 <= j0 < |s.threads| && (s.threads[j0].DelMap? || s.threads[j0].DoIter?) {
      j := j0;
    } else {
      j := i;
    }
  }

  // ----- what a call has done when it returns -----

  /** Only these steps of calls on the key itself change what the map has under it. */
  predicate Changes(s: State, a: Step, k: Text)
    requires Enabled(s, a)
  {
    a.Go? && var t := s.threads[a.i];
      (t.SetStore? || t.SetLoadOrStore? || t.AddLoadOrStore? || t.DelMap?) && t.key == k
  }

  lemma ValueKept(s: State, a: Step, k: Text)
    requires Enabled(s, a) && !Changes(s, a, k)
    ensures var s' := Apply(s, a); (k in s'.m <==> k in s.m) && (k in s.m ==> s'.m[k] == s.m[k])
  {
    hide SearchStrings, WithKey;
  }

  /** Between c and n a step of goroutine i left the value v under k. */
  ghost predicate StoredBy(ss: seq<State>, steps: seq<Step>, c: nat, n: nat, i: nat, k: Text, v: Var)
    requires n <= |steps| < |ss|
  {
    exists z :: c < z < n && steps[z] == Go(i) && k in ss[z + 1].m && ss[z + 1].m[k] == v
  }

  /** ... or found or left some value there. */
  ghost predicate PresentBy(ss: seq<State>, steps: seq<Step>, c: nat, n: nat, i: nat, k: Text)
    requires n <= |steps| < |ss|
  {
    exists z :: c < z < n && steps[z] == Go(i) && k in ss[z + 1].m
  }

  /** The key was found there already, or is listed after a step of i. */
  ghost predicate ListedBy(ss: seq<State>, steps: seq<Step>, c: nat, n: nat, i: nat, k: Text)
    requires n <= |steps| < |ss|
  {
    exists z :: c < z < n && steps[z] == Go(i) && (k in ss[z].m || k in ss[z + 1].keys)
  }

  /** A step of i found the key unlisted and changed nothing, or left it neither listed nor in
      the map. */
  ghost predicate GoneBy(ss: seq<State>, steps: seq<Step>, c: nat, n: nat, i: nat, k: Text)
    requires n <= |steps| < |ss|
  {
    exists z :: c < z < n && steps[z] == Go(i)
      && ((k !in ss[z].keys && ss[z + 1].m == ss[z].m) || (k !in ss[z + 1].m && k !in ss[z + 1].keys))
  }

  /** i has visited all that was listed. */
  ghost predicate VisitedBy(ss: seq<State>, steps: seq<Step>, c: nat, n: nat, i: nat)
    requires n <= |steps| < |ss|
  {
    exists z :: c < z < n && steps[z] == Go(i) && i < |ss[z].threads| && ss[z].threads[i] == DoIter(|ss[z].keys|, ss[z].keys)
  }

  /** How far the call t of goroutine i, made in step c, is before step n. */
  ghost predicate Stage(ss: seq<State>, steps: seq<Step>, c: nat, n: nat, i: nat, t: Thread)
    requires n <= |steps| < |ss|
  {
    && i < |ss[n].threads|
    && var u := ss[n].threads[i];
      match t
      case SetLoad(k, v) =>
        || u == SetLoad(k, v) || u == SetLoadOrStore(k, v) || (u == SetStore(k, v) && ListedBy(ss, steps, c, n, i, k))
        || (u == AddKey(k) && StoredBy(ss, steps, c, n, i, k, v))
        || (u == Idle && StoredBy(ss, steps, c, n, i, k, v) && ListedBy(ss, steps, c, n, i, k))
      case AddLoad(k, v) =>
        || u == AddLoad(k, v) || u == AddLoadOrStore(k, v)
        || (u == AddKey(k) && PresentBy(ss, steps, c, n, i, k))
        || (u == Idle && PresentBy(ss, steps, c, n, i, k) && ListedBy(ss, steps, c, n, i, k))
      case DelLock(k) => u == DelLock(k) || u == DelMap(k) || (u == Idle && GoneBy(ss, steps, c, n, i, k))
      case DoLock => u.DoLock? || u.DoIter? || (u == Idle && VisitedBy(ss, steps, c, n, i))
      case _ => false
  }

  lemma StageStart(ss: seq<State>, steps: seq<Step>, c: nat)
    requires Trace(ss, steps) && c < |steps| && steps[c].Call?
    ensures Stage(ss, steps, c, c + 1, steps[c].i, steps[c].t)
  {
  }

  /** What was done stays done. */
  lemma DoneStays(ss: seq<State>, steps: seq<Step>, c: nat, n: nat, i: nat, k: Text, v: Var)
    requires n < |steps| < |ss|
    ensures StoredBy(ss, steps, c, n, i, k, v) ==> StoredBy(ss, steps, c, n + 1, i, k, v)
    ensures PresentBy(ss, steps, c, n, i, k) ==> PresentBy(ss, steps, c, n + 1, i, k)
    ensures ListedBy(ss, steps, c, n, i, k) ==> ListedBy(ss, steps, c, n + 1, i, k)
    ensures GoneBy(ss, steps, c, n, i, k) ==> GoneBy(ss, steps, c, n + 1, i, k)
    ensures VisitedBy(ss, steps, c, n, i) ==> VisitedBy(ss, steps, c, n + 1, i)
  {
  }

  /** What the step before n + 1 has done. */
  lemma DoneNow(ss: seq<State>, steps: seq<Step>, c: nat, n: nat, i: nat, k: Text, v: Var)
    requires c < n < |steps| < |ss| && steps[n] == Go(i)
    ensures k in ss[n + 1].m && ss[n + 1].m[k] == v ==> StoredBy(ss, steps, c, n + 1, i, k, v)
    ensures k in ss[n + 1].m ==> PresentBy(ss, steps, c, n + 1, i, k)
    ensures k in ss[n].m || k in ss[n + 1].keys ==> ListedBy(ss, steps, c, n + 1, i, k)
    ensures (k !in ss[n].keys && ss[n + 1].m == ss[n].m) || (k !in ss[n + 1].m && k !in ss[n + 1].keys) ==> GoneBy(ss, steps, c, n + 1, i, k)
    ensures i < |ss[n].threads| && ss[n].threads[i] == DoIter(|ss[n].keys|, ss[n].keys) ==> VisitedBy(ss, steps, c, n + 1, i)
  {
  }

  /** The next step of the call, and what it does. */
  lemma CallMoves(s: State, i: nat)
    requires Inv(s) && Enabled(s, Go(i))
    ensures var t, s' := s.threads[i], Apply(s, Go(i)); i < |s'.threads| && var u := s'.threads[i];
      match t
      case SetLoad(k, v) => u == if k in s.m then SetStore(k, v) else SetLoadOrStore(k, v)
      case SetLoadOrStore(k, v) => if k in s.m then u == SetStore(k, v) else u == AddKey(k) && k in s'.m && s'.m[k] == v
      case SetStore(k, v) => u == Idle && k in s'.m && s'.m[k] == v
      case AddLoad(k, v) => if k in s.m then u == Idle && k in s'.m else u == AddLoadOrStore(k, v)
      case AddLoadOrStore(k, v) => if k in s.m then u == Idle && k in s'.m else u == AddKey(k) && k in s'.m
      case AddKey(k) => u == Idle && k in s'.keys
      case DelLock(k) => if k in s.keys then u == DelMap(k) else u == Idle && s'.m == s.m
      case DelMap(k) => u == Idle && k !in s'.m && k !in s'.keys
      case DoLock => u.DoIter?
      case DoIter(n, seen) => if n < |s.keys| then u.DoIter? else u == Idle && t == DoIter(|s.keys|, s.keys)
      case Idle => false
  {
    hide Less;
    var t := s.threads[i];
    if t.AddKey? { WithNewKey(s.keys, t.key); }
    if t.DelLock? { SearchFinds(s.keys, t.key); }
    hide SearchStrings, WithKey, Ascending;
  }

  lemma StageStep(ss: seq<State>, steps: seq<Step>, c: nat, n: nat, i: nat, t: Thread)
    requires Trace(ss, steps) && c < n < |steps| && IsEntry(t) && Stage(ss, steps, c, n, i, t) && Inv(ss[n])
    requires !(steps[n].Call? && steps[n].i == i)
    ensures Stage(ss, steps, c, n + 1, i, t)
  {
    hide Apply, Inv, StoredBy, PresentBy, ListedBy, GoneBy, VisitedBy;
    var k, v := Key(t), if t.SetLoad? then t.v else 0;
    DoneStays(ss, steps, c, n, i, k, v);
    StepThreads(ss[n], steps[n], i);
    if steps[n] == Go(i) {
      CallMoves(ss[n], i);
      DoneNow(ss, steps, c, n, i, k, v);
    }
  }

  lemma StepThreads(s: State, a: Step, i: nat)
    requires Enabled(s, a)
    ensures |Apply(s, a).threads| == |s.threads|
    ensures i < |s.threads| && i != a.i ==> Apply(s, a).threads[i] == s.threads[i]
  {
    hide SearchStrings, WithKey;
  }

  lemma {:induction false} Stages(ss: seq<State>, steps: seq<Step>, c: nat, n: nat)
    requires Trace(ss, steps) && c < n <= |steps| && steps[c].Call?
    requires forall m | 0 <= m < |ss| :: Inv(ss[m])
    requires forall m | c < m < n :: !(steps[m].Call? && steps[m].i == steps[c].i)
    ensures Stage(ss, steps, c, n, steps[c].i, steps[c].t)
    decreases n
  {
    hide Apply, Enabled, Inv, Stage;
    if n == c + 1 {
      StageStart(ss, steps, c);
    } else {
      Stages(ss, steps, c, n - 1);
      assert IsEntry(steps[c].t) by { EntryCall(ss[c], steps[c]); }
      StageStep(ss, steps, c, n - 1, steps[c].i, steps[c].t);
    }
  }

  lemma EntryCall(s: State, a: Step)
    requires Enabled(s, a) && a.Call?
    ensures IsEntry(a.t)
  {
  }

  lemma {:induction false} TraceInv(ss: seq<State>, steps: seq<Step>, n: nat)
    requires Trace(ss, steps) && n <= |steps| && Inv(ss[0])
    ensures Inv(ss[n])
    decreases n
  {
    hide Apply, Enabled, Inv;
    if n > 0 {
      TraceInv(ss, steps, n - 1);
      StepInv(ss[n - 1], steps[n - 1]);
    }
  }

  /** When Set has returned, the map had the value at some moment of the call, and the key was
      there before or is listed; when Add has, the key was in the map and there before or
      listed; when Delete has, the key was unlisted, or was then neither listed nor in the map;
      when Do has, it had visited all that was listed. By ValueKept only calls on the same key
      change that. */
  lemma CallReturns(count: nat, steps: seq<Step>, c: nat)
    requires Runs(Init(count), steps) && c < |steps| && steps[c].Call?
    requires forall m | c < m < |steps| :: !(steps[m].Call? && steps[m].i == steps[c].i)
    requires var s := Run(Init(count), steps); steps[c].i < |s.threads| && s.threads[steps[c].i].Idle?
    ensures var ss, n, i, t := States(Init(count), steps), |steps|, steps[c].i, steps[c].t;
      match t
      case SetLoad(k, v) => StoredBy(ss, steps, c, n, i, k, v) && ListedBy(ss, steps, c, n, i, k)
      case AddLoad(k, v) => PresentBy(ss, steps, c, n, i, k) && ListedBy(ss, steps, c, n, i, k)
      case DelLock(k) => GoneBy(ss, steps, c, n, i, k)
      case DoLock => VisitedBy(ss, steps, c, n, i)
      case _ => false
  {
    hide Apply, Inv, StoredBy, PresentBy, ListedBy, GoneBy, VisitedBy;
    var ss := States(Init(count), steps);
    StatesTrace(Init(count), steps);
    InitInv(count);
    forall m | 0 <= m < |ss|
      ensures Inv(ss[m])
    {
      TraceInv(ss, steps, m);
    }
    Stages(ss, steps, c, |steps|);
    EntryCall(ss[c], steps[c]);
  }
}
