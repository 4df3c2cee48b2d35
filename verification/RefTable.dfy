/** The table of JavaScript values Go holds references to (misc/wasm/wasm_exec.js). */
module RefTable {
  import opened Common
  import opened Words
  import opened Float64

  datatype Kind = Null | Boolean | Str | Symbol | Function | Object | BigInt

  /** A JavaScript value; key tells apart the values of one kind. */
  datatype Value = Undefined | NotANumber | Number(bits: Word) | Other(kind: Kind, key: nat)

  const NULL: Value := Other(Null, 0)
  const TRUE: Value := Other(Boolean, 1)
  const FALSE: Value := Other(Boolean, 0)
  const GLOBAL: Value := Other(Object, 0)
  const THIS: Value := Other(Object, 1)

  /** Lines 514-522 */
  const PREDEFINED: seq<Value> := [NotANumber, Number(0), NULL, TRUE, FALSE, GLOBAL, THIS]

  /** NotANumber stands for every NaN. */
  predicate Proper(v: Value) { v.Number? ==> !IsNaN(v.bits) }

  /** A Map does not tell 0 from -0. */
  function Same(v: Value): Value { if v.Number? && IsZero(v.bits) then Number(0) else v }

  /** Lines 188-201: values that are written without a reference. */
  predicate Direct(v: Value) { v.Undefined? || v.NotANumber? || (v.Number? && !IsZero(v.bits)) }

  const NAN_HEAD: nat := 0x7FF8_0000
  const M32: nat := 0x1_0000_0000

  /** Lines 214-230 */
  function TypeFlag(v: Value): nat {
    if !v.Other? then 0
    else match v.kind
      case Object => 1
      case Str => 2
      case Symbol => 3
      case Function => 4
      case _ => 0
  }

  /** nanHead | typeFlag above the id. */
  function RefWord(v: Value, id: nat): Word
    requires id < M32
  {
    (NAN_HEAD + TypeFlag(v)) * 0x1_0000_0000 + id
  }

  lemma RefWordIs(v: Value, id: nat)
    requires id < M32
    ensures IsNaN(RefWord(v, id)) && RefWord(v, id) % 0x1_0000_0000 == id
  {
  }

  datatype Count = Infinite | Finite(n: int)

  function AddTo(c: Count, d: int): Count { if c.Infinite? then c else Finite(c.n + d) }

  // ----- the table as a value -----

  /** _values, _goRefCounts, _ids and _idPool. */
  datatype State = State(values: seq<Value>, counts: seq<Count>, ids: map<Value, nat>, pool: seq<nat>)

  /** The predefined entries are there, and are never counted down. */
  ghost predicate Fixed(t: State) {
    && 7 <= |t.values| == |t.counts|
    && forall k | 0 <= k < 7 :: t.counts[k] == Infinite && t.values[k] == PREDEFINED[k] && (k > 0 ==> t.values[k] in t.ids && t.ids[t.values[k]] == k)
  }

  /** Values and the ids in use are in bijection. */
  ghost predicate Linked(t: State) {
    && (forall v | v in t.ids :: t.ids[v] < |t.values| && t.values[t.ids[v]] == v && t.ids[v] !in t.pool && !Direct(v) && Same(v) == v)
    && (forall k | 7 <= k < |t.values| && k !in t.pool :: t.values[k] in t.ids && t.ids[t.values[k]] == k)
  }

  /** Unused ids are in the pool, once. */
  ghost predicate Pooled(t: State) { Distinct(t.pool) && forall k | k in t.pool :: 7 <= k < |t.values| }

  /** Counts are the outstanding references, and an id is unused exactly if it has none. */
  ghost predicate Counted(t: State, out: multiset<nat>) {
    && |t.values| == |t.counts|
    && (forall k | 7 <= k < |t.values| :: t.counts[k] == Finite(out[k]) && (k in t.pool <==> out[k] == 0))
    && (forall k | k in out :: k < |t.values|)
  }

  ghost predicate Ok(t: State, out: multiset<nat>) { Fixed(t) && Linked(t) && Pooled(t) && Counted(t, out) }

  /** Lines 203-212: the table with an id for v, and that id. */
  function WithId(t: State, v: Value): (State, nat) {
    if v in t.ids then (t, t.ids[v])
    else if |t.pool| > 0 then
      var id := t.pool[|t.pool| - 1];
      if id < |t.values| == |t.counts| then
        (State(t.values[id := v], t.counts[id := Finite(0)], t.ids[v := id], t.pool[..|t.pool| - 1]), id)
      else (t, id)
    else (State(t.values + [v], t.counts + [Finite(0)], t.ids[v := |t.values|], t.pool), |t.values|)
  }

  /** Line 213 */
  function Referenced(t: State, id: nat): State
    requires id < |t.counts|
  {
    t.(counts := t.counts[id := AddTo(t.counts[id], 1)])
  }

  /** Lines 345-351 */
  function Finalized(t: State, id: nat): State
    requires id < |t.counts| == |t.values|
  {
    var t1 := t.(counts := t.counts[id := AddTo(t.counts[id], -1)]);
    if t1.counts[id] == Finite(0) then
      t1.(values := t.values[id := NULL], ids := t.ids - {t.values[id]}, pool := t.pool + [id])
    else t1
  }

  /** What outstanding references mean does not change. */
  ghost predicate Kept(t: State, t': State, out: multiset<nat>) {
    |t.values| <= |t'.values| && forall k | 0 <= k < |t.values| && (k < 7 || k in out) :: t'.values[k] == t.values[k]
  }

  lemma WithIdOk(t: State, out: multiset<nat>, v: Value)
    requires Ok(t, out) && !Direct(v) && Same(v) == v
    ensures var r := WithId(t, v); var t', id := r.0, r.1;
      && Fixed(t') && Linked(t') && Pooled(t') && Kept(t, t', out)
      && id < |t'.values| == |t'.counts| && t'.values[id] == v && id !in t'.pool
      && |t'.values| <= |t.values| + 1
      && (forall k | 7 <= k < |t'.values| :: t'.counts[k] == Finite(out[k]) && (k in t'.pool <==> out[k] == 0 && k != id))
      && (forall k | k in out :: k < |t'.values|)
  {
    if v in t.ids {
    } else if |t.pool| > 0 {
      FromPool(t, out, v);
    } else {
      Appended(t, out, v);
    }
  }

  lemma LastOfPool(pool: seq<nat>)
    requires Distinct(pool) && pool != []
    ensures Distinct(pool[..|pool| - 1])
    ensures forall k: nat :: k in pool[..|pool| - 1] <==> k in pool && k != pool[|pool| - 1]
  {
    assert pool == pool[..|pool| - 1] + [pool[|pool| - 1]];
  }

  lemma FromPool(t: State, out: multiset<nat>, v: Value)
    requires Ok(t, out) && !Direct(v) && Same(v) == v && v !in t.ids && |t.pool| > 0
    ensures var r := WithId(t, v); var t', id := r.0, r.1;
      && Fixed(t') && Linked(t') && Pooled(t') && Kept(t, t', out)
      && id < |t'.values| == |t'.counts| == |t.values| && t'.values[id] == v && id !in t'.pool
      && (forall k | 7 <= k < |t'.values| :: t'.counts[k] == Finite(out[k]) && (k in t'.pool <==> out[k] == 0 && k != id))
  {
    hide Direct, Same;
    LastOfPool(t.pool);
    var id := t.pool[|t.pool| - 1];
    var rest := t.pool[..|t.pool| - 1];
    assert id in t.pool && 7 <= id < |t.values| && out[id] == 0;
    var t' := State(t.values[id := v], t.counts[id := Finite(0)], t.ids[v := id], rest);
    assert WithId(t, v) == (t', id);
    hide WithId;
    assert Pooled(t') by { assert forall k | k in rest :: k in t.pool; }
    LinkedFromPool(t, t', id, v);
    hide Linked, Pooled;
  }

  lemma LinkedFromPool(t: State, t': State, id: nat, v: Value)
    requires Fixed(t) && Linked(t) && !Direct(v) && Same(v) == v && v !in t.ids && 7 <= id < |t.values| && id in t.pool
    requires t'.values == t.values[id := v] && t'.ids == t.ids[v := id]
    requires forall k: nat :: k in t'.pool <==> k in t.pool && k != id
    ensures Linked(t')
  {
    hide Direct, Same;
  }

  lemma Appended(t: State, out: multiset<nat>, v: Value)
    requires Ok(t, out) && !Direct(v) && Same(v) == v && v !in t.ids && t.pool == []
    ensures var r := WithId(t, v); var t', id := r.0, r.1;
      && Fixed(t') && Linked(t') && Pooled(t') && Kept(t, t', out)
      && id < |t'.values| == |t'.counts| == |t.values| + 1 && t'.values[id] == v && id !in t'.pool
      && (forall k | 7 <= k < |t'.values| :: t'.counts[k] == Finite(out[k]) && (k in t'.pool <==> out[k] == 0 && k != id))
  {
    hide Direct, Same;
  }

  lemma StoreOk(t: State, out: multiset<nat>, v: Value)
    requires Ok(t, out) && !Direct(v) && Same(v) == v
    ensures var r := WithId(t, v);
      && r.1 < |r.0.counts| == |r.0.values| && Ok(Referenced(r.0, r.1), out + multiset{r.1}) && Kept(t, Referenced(r.0, r.1), out)
      && Referenced(r.0, r.1).values[r.1] == v && |r.0.values| <= |t.values| + 1
  {
    hide Direct, Same, WithId;
    WithIdOk(t, out, v);
    Recounted(WithId(t, v).0, WithId(t, v).1, out);
  }

  lemma Recounted(t: State, id: nat, out: multiset<nat>)
    requires Fixed(t) && Linked(t) && Pooled(t) && id < |t.values| == |t.counts| && id !in t.pool
    requires forall k | 7 <= k < |t.values| :: t.counts[k] == Finite(out[k]) && (k in t.pool <==> out[k] == 0 && k != id)
    requires forall k | k in out :: k < |t.values|
    ensures Ok(Referenced(t, id), out + multiset{id})
  {
    hide Direct, Same;
    var out' := out + multiset{id};
    assert forall k :: out'[k] == if k == id then out[k] + 1 else out[k];
  }

  lemma FinalizeOk(t: State, out: multiset<nat>, id: nat)
    requires Ok(t, out) && id in out
    ensures id < |t.counts| && Ok(Finalized(t, id), out - multiset{id}) && Kept(t, Finalized(t, id), out - multiset{id})
    ensures |Finalized(t, id).values| == |t.values|
  {
    if id >= 7 && out[id] == 1 {
      LastReference(t, out, id);
    } else {
      StillReferenced(t, out, id);
    }
  }

  lemma StillReferenced(t: State, out: multiset<nat>, id: nat)
    requires Ok(t, out) && id in out && (id < 7 || out[id] > 1)
    ensures id < |t.counts| && Ok(Finalized(t, id), out - multiset{id}) && Kept(t, Finalized(t, id), out - multiset{id})
    ensures |Finalized(t, id).values| == |t.values|
  {
    hide Direct, Same;
    var out' := out - multiset{id};
    assert forall k :: out'[k] == if k == id then out[k] - 1 else out[k];
    var t' := Finalized(t, id);
    assert t' == t.(counts := t.counts[id := AddTo(t.counts[id], -1)]);
    hide Finalized, Linked, Pooled;
    SameLinks(t, t');
  }

  lemma SameLinks(t: State, t': State)
    requires t'.values == t.values && t'.ids == t.ids && t'.pool == t.pool
    ensures Linked(t) ==> Linked(t')
    ensures Pooled(t) ==> Pooled(t')
  {
    hide Direct, Same;
  }

  lemma LastReference(t: State, out: multiset<nat>, id: nat)
    requires Ok(t, out) && id >= 7 && out[id] == 1
    ensures id < |t.counts| && Ok(Finalized(t, id), out - multiset{id}) && Kept(t, Finalized(t, id), out - multiset{id})
    ensures |Finalized(t, id).values| == |t.values|
  {
    hide Direct, Same;
    var out' := out - multiset{id};
    assert forall k :: out'[k] == if k == id then 0 else out[k];
    assert id in out && id < |t.values| && id !in t.pool;
    var pool := t.pool + [id];
    assert forall k: nat :: k in pool <==> k in t.pool || k == id;
    var t' := Finalized(t, id);
    assert t' == State(t.values[id := NULL], t.counts[id := Finite(0)], t.ids - {t.values[id]}, pool);
    hide Finalized;
    assert Distinct(pool);
    Unlinked(t, id);
  }

  lemma Unlinked(t: State, id: nat)
    requires Fixed(t) && Linked(t) && 7 <= id < |t.values| && id !in t.pool
    ensures Fixed(State(t.values[id := NULL], t.counts[id := Finite(0)], t.ids - {t.values[id]}, t.pool + [id]))
    ensures Linked(State(t.values[id := NULL], t.counts[id := Finite(0)], t.ids - {t.values[id]}, t.pool + [id]))
  {
    hide Direct, Same;
    var pool := t.pool + [id];
    assert forall k: nat :: k in pool <==> k in t.pool || k == id;
  }

  const INITIAL: State := State(PREDEFINED, seq(7, _ => Infinite),
                                map[Number(0) := 1, NULL := 2, TRUE := 3, FALSE := 4, GLOBAL := 5, THIS := 6], [])

  lemma InitialOk()
    ensures Ok(INITIAL, multiset{})
  {
    hide Direct, Same;
    assert Number(0) != NULL && NULL != TRUE && TRUE != FALSE && GLOBAL != THIS;
    forall k | 0 <= k < 7
      ensures INITIAL.counts[k] == Infinite && (k > 0 ==> INITIAL.values[k] in INITIAL.ids && INITIAL.ids[INITIAL.values[k]] == k)
    {
      if k <= 3 {
        assert k == 0 || k == 1 || k == 2 || k == 3;
      } else {
        assert k == 4 || k == 5 || k == 6;
      }
    }
    AllReferences();
  }

  lemma AllReferences()
    ensures forall v | v in INITIAL.ids :: !Direct(v) && Same(v) == v && INITIAL.ids[v] < 7 && INITIAL.values[INITIAL.ids[v]] == v
  {
  }

  lemma AlwaysKept(t: State, out: multiset<nat>)
    ensures Kept(t, t, out)
  {
  }

  /** What the code relies on when it uses the table. */
  lemma InRange(t: State, out: multiset<nat>)
    requires Ok(t, out)
    ensures |t.values| == |t.counts| >= 7 && t.values[0] == NotANumber
    ensures forall v | v in t.ids :: t.ids[v] < |t.values|
    ensures t.pool != [] ==> t.pool[|t.pool| - 1] < |t.values|
    ensures forall k | k in out :: k < |t.values|
  {
    hide Direct, Same;
    assert t.pool != [] ==> t.pool[|t.pool| - 1] in t.pool;
  }

  /** Values are told apart by their ids, and ids by their values. */
  lemma Bijective(t: State, out: multiset<nat>, v: Value, w: Value, k: nat)
    requires Ok(t, out)
    ensures v in t.ids && w in t.ids && t.ids[v] == t.ids[w] ==> v == w
    ensures 7 <= k < |t.values| && k in out ==> t.values[k] in t.ids && t.ids[t.values[k]] == k
    ensures k in t.pool ==> k !in out && forall x | x in t.ids :: t.ids[x] != k
  {
    hide Direct, Same;
  }

  // ----- the code -----

  class Table {
    var values: seq<Value>
    var goRefCounts: seq<Count>
    var ids: map<Value, nat>
    var idPool: seq<nat>

    /** References that Go has and has not finalized. */
    ghost var outstanding: multiset<nat>

    function Content(): State
      reads this
    {
      State(values, goRefCounts, ids, idPool)
    }

    ghost predicate Valid()
      reads this
    {
      Ok(Content(), outstanding) && |values| < M32
    }

    /** Lines 514-532 */
    constructor ()
      ensures Valid() && outstanding == multiset{}
    {
      values := PREDEFINED;
      goRefCounts := seq(7, _ => Infinite);
      ids := map[Number(0) := 1, NULL := 2, TRUE := 3, FALSE := 4, GLOBAL := 5, THIS := 6];
      idPool := [];
      outstanding := multiset{};
      InitialOk();
    }

    /** Line 172: loadValue */
    function Load(word: Word): Value
      reads this
    {
      if IsZero(word) then Undefined
      else if !IsNaN(word) then Number(word)
      else
        var id := word % 0x1_0000_0000;
        if id < |values| then values[id] else Undefined
    }

    /** Line 185: storeValue. Loading the word gives the value back. */
    method Store(v: Value) returns (word: Word)
      requires Valid() && Proper(v) && |values| < M32 - 1
      modifies this
      ensures Valid() && Load(word) == Same(v) && |values| <= old(|values|) + 1
      ensures Direct(v) ==> outstanding == old(outstanding) && Content() == old(Content())
      ensures Direct(v) && IsNaN(word) ==> word % 0x1_0000_0000 == 0
      ensures !Direct(v) ==> outstanding == old(outstanding) + multiset{word % 0x1_0000_0000} && IsNaN(word)
      ensures Kept(old(Content()), Content(), old(outstanding))
    {
      hide Ok, Kept;
      InRange(Content(), outstanding);
      if Direct(v) {
        word := DirectWord(v);
        AlwaysKept(Content(), outstanding);
        return;
      }
      var id: nat;
      StoreOk(Content(), outstanding, Same(v));
      ghost var next := WithId(Content(), Same(v));
      if Same(v) in ids {
        id := ids[Same(v)];
      } else if |idPool| > 0 {
        id := idPool[|idPool| - 1];
        idPool := idPool[..|idPool| - 1];
        values, goRefCounts, ids := values[id := Same(v)], goRefCounts[id := Finite(0)], ids[Same(v) := id];
      } else {
        id := |values|;
        values, goRefCounts, ids := values + [Same(v)], goRefCounts + [Finite(0)], ids[Same(v) := id];
      }
      assert Content() == next.0 && id == next.1;
      goRefCounts := goRefCounts[id := AddTo(goRefCounts[id], 1)];
      outstanding := outstanding + multiset{id};
      assert Content() == Referenced(next.0, id);
      RefWordIs(v, id);
      return RefWord(v, id);
    }

    /** Lines 188-201 */
    method DirectWord(v: Value) returns (word: Word)
      requires Direct(v) && Proper(v) && |values| > 0 && values[0] == NotANumber
      ensures Load(word) == v == Same(v) && (IsNaN(word) ==> word % 0x1_0000_0000 == 0)
    {
      if v.Number? {
        return v.bits;
      }
      if v.NotANumber? {
        return NAN_HEAD * 0x1_0000_0000;
      }
      return 0;
    }

    /** Line 342: finalizeRef, for a reference Go has not finalized more often than it was
        stored. */
    method Finalize(id: nat)
      requires Valid() && id in outstanding
      modifies this
      ensures Valid() && outstanding == old(outstanding) - multiset{id} && |values| == old(|values|)
      ensures Kept(old(Content()), Content(), outstanding)
    {
      hide Ok, Kept;
      InRange(Content(), outstanding);
      FinalizeOk(Content(), outstanding, id);
      goRefCounts := goRefCounts[id := AddTo(goRefCounts[id], -1)];
      outstanding := outstanding - multiset{id};
      if goRefCounts[id] == Finite(0) {
        var v := values[id];
        values := values[id := NULL];
        ids := ids - {v};
        idPool := idPool + [id];
      }
    }
  }

  // ----- runs -----

  /** Storing a value, or finalizing the k-th reference stored so far. */
  datatype Op = StoreOp(v: Value) | FinalizeOp(k: nat)

  /** A reference as Go keeps it: the value stored, its word, and whether it is still live. */
  datatype Ref = Ref(v: Value, word: Word, live: bool)

  predicate Counts(r: Ref) { r.live && !Direct(r.v) }

  function IdOf(r: Ref): nat { r.word % 0x1_0000_0000 }

  /** The ids of the live references. */
  function Held(refs: seq<Ref>): multiset<nat> {
    if refs == [] then multiset{}
    else (if Counts(refs[0]) then multiset{IdOf(refs[0])} else multiset{}) + Held(refs[1..])
  }

  lemma {:induction false} HeldMember(refs: seq<Ref>, k: nat)
    requires k < |refs| && Counts(refs[k])
    ensures IdOf(refs[k]) in Held(refs)
    decreases k
  {
    if k > 0 { HeldMember(refs[1..], k - 1); }
  }

  lemma {:induction false} HeldSnoc(refs: seq<Ref>, r: Ref)
    ensures Held(refs + [r]) == Held(refs) + if Counts(r) then multiset{IdOf(r)} else multiset{}
    decreases refs
  {
    if refs == [] {
      assert refs + [r] == [r];
    } else {
      assert (refs + [r])[1..] == refs[1..] + [r];
      HeldSnoc(refs[1..], r);
    }
  }

  lemma {:induction false} HeldDrop(refs: seq<Ref>, k: nat)
    requires k < |refs| && Counts(refs[k])
    ensures Held(refs[k := refs[k].(live := false)]) == Held(refs) - multiset{IdOf(refs[k])}
    decreases k
  {
    var dropped := refs[k := refs[k].(live := false)];
    if k > 0 {
      assert dropped[1..] == refs[1..][k - 1 := refs[k].(live := false)];
      HeldDrop(refs[1..], k - 1);
      HeldMember(refs[1..], k - 1);
    } else {
      assert dropped[1..] == refs[1..];
    }
  }

  /** Loading the word gives the value. */
  predicate Loads(t: State, r: Ref) {
    if IsZero(r.word) then r.v == Undefined
    else if !IsNaN(r.word) then Number(r.word) == Same(r.v)
    else IdOf(r) < |t.values| && t.values[IdOf(r)] == Same(r.v)
  }

  /** A table that keeps what the live references mean keeps them loading their values. */
  lemma StillLoads(t: State, t': State, refs: seq<Ref>, out: multiset<nat>, r: Ref)
    requires Loads(t, r) && Kept(t, t', out) && |t.values| > 0
    requires Counts(r) ==> IdOf(r) in out
    requires !Counts(r) ==> IsZero(r.word) || !IsNaN(r.word) || IdOf(r) == 0
    ensures Loads(t', r)
  {
  }

  /** Every run of stores and finalizations in which no reference is finalized twice: each
      live reference, and each value that needs none, still loads the value stored. */
  method Perform(t: Table, ops: seq<Op>) returns (refs: seq<Ref>)
    requires t.Valid() && t.outstanding == multiset{} && |t.values| + |ops| < M32 - 1
    requires forall i | 0 <= i < |ops| && ops[i].StoreOp? :: Proper(ops[i].v)
    modifies t
    ensures t.Valid() && t.outstanding == Held(refs)
    ensures forall i | 0 <= i < |refs| && (refs[i].live || Direct(refs[i].v)) :: t.Load(refs[i].word) == Same(refs[i].v)
  {
    refs := [];
    for i := 0 to |ops|
      invariant t.Valid() && t.outstanding == Held(refs) && |t.values| + (|ops| - i) < M32 - 1
      invariant forall j | 0 <= j < |refs| && (refs[j].live || Direct(refs[j].v)) :: Sound(t.Content(), refs[j])
    {
      hide Held, Direct, Same, Ok, Kept, Loads;
      match ops[i]
      case StoreOp(v) => refs := PerformStore(t, refs, v);
      case FinalizeOp(k) =>
        if k < |refs| && Counts(refs[k]) {
          refs := PerformFinalize(t, refs, k);
        }
    }
  }

  /** Loads, and if it is not counted its word does not depend on the table. */
  predicate Sound(t: State, r: Ref) {
    Loads(t, r) && (!Counts(r) ==> IsZero(r.word) || !IsNaN(r.word) || IdOf(r) == 0)
  }

  method PerformStore(t: Table, refs0: seq<Ref>, v: Value) returns (refs: seq<Ref>)
    requires t.Valid() && t.outstanding == Held(refs0) && |t.values| < M32 - 1 && Proper(v)
    requires forall j | 0 <= j < |refs0| && (refs0[j].live || Direct(refs0[j].v)) :: Sound(t.Content(), refs0[j])
    modifies t
    ensures t.Valid() && t.outstanding == Held(refs) && |t.values| <= old(|t.values|) + 1
    ensures forall j | 0 <= j < |refs| && (refs[j].live || Direct(refs[j].v)) :: Sound(t.Content(), refs[j])
  {
    hide Held, Same, Ok, Kept, Loads;
    InRange(t.Content(), t.outstanding);
    var word := t.Store(v);
    var r := Ref(v, word, true);
    HeldSnoc(refs0, r);
    refs := refs0 + [r];
    forall j | 0 <= j < |refs0| && (refs0[j].live || Direct(refs0[j].v))
      ensures Sound(t.Content(), refs[j])
    {
      if Counts(refs0[j]) { HeldMember(refs0, j); }
      StillLoads(old(t.Content()), t.Content(), refs0, Held(refs0), refs0[j]);
    }
    InRange(t.Content(), t.outstanding);
    assert !Direct(v) ==> IdOf(r) in t.outstanding;
    NewLoads(t, r);
  }

  lemma NewLoads(t: Table, r: Ref)
    requires t.Load(r.word) == Same(r.v) && Proper(r.v) && r.live && |t.values| > 0 && t.values[0] == NotANumber
    requires !Direct(r.v) ==> IsNaN(r.word) && IdOf(r) < |t.values|
    requires Direct(r.v) && IsNaN(r.word) ==> IdOf(r) == 0
    ensures Sound(t.Content(), r)
  {
  }

  method PerformFinalize(t: Table, refs0: seq<Ref>, k: nat) returns (refs: seq<Ref>)
    requires t.Valid() && t.outstanding == Held(refs0) && k < |refs0| && Counts(refs0[k])
    requires forall j | 0 <= j < |refs0| && (refs0[j].live || Direct(refs0[j].v)) :: Sound(t.Content(), refs0[j])
    modifies t
    ensures t.Valid() && t.outstanding == Held(refs) && |t.values| == old(|t.values|)
    ensures forall j | 0 <= j < |refs| && (refs[j].live || Direct(refs[j].v)) :: Sound(t.Content(), refs[j])
  {
    hide Held, Direct, Same, Ok, Kept, Loads;
    InRange(t.Content(), t.outstanding);
    HeldMember(refs0, k);
    HeldDrop(refs0, k);
    t.Finalize(IdOf(refs0[k]));
    refs := refs0[k := refs0[k].(live := false)];
    forall j | 0 <= j < |refs| && (refs[j].live || Direct(refs[j].v))
      ensures Sound(t.Content(), refs[j])
    {
      if Counts(refs[j]) { HeldMember(refs, j); }
      StillLoads(old(t.Content()), t.Content(), refs, Held(refs), refs[j]);
    }
  }
}
