/** One configuration variable and its listeners. */
module ConfigVars {
  import opened Common
  import opened ConfigPaths
  import opened Yaml

  /** Listener keys are 64-bit and unsigned. */
  type Key = k: int | 0 <= k < 0x1_0000_0000_0000_0000

  /** One call of a callback. */
  datatype Call<T, CB> = Call(key: Key, callback: CB, oldValue: T, newValue: T)

  /** The value, the registered callbacks, and every call made so far. */
  datatype VarState<T, CB> = VarState(value: T, callbacks: map<Key, CB>, calls: seq<Call<T, CB>>)

  // ---------------------------------------------------------------------
  // The order of calls

  predicate Least(k: Key, keys: set<Key>) {
    k in keys && forall j :: j in keys ==> k <= j
  }

  lemma {:induction false} HasLeast(keys: set<Key>)
    requires keys != {}
    ensures exists k :: Least(k, keys)
    decreases keys
  {
    var k :| k in keys;
    var rest := keys - {k};
    assert forall j :: j in keys ==> j == k || j in rest;
    if rest == {} {
      assert Least(k, keys);
    } else {
      HasLeast(rest);
      var m :| Least(m, rest);
      assert Least(if k <= m then k else m, keys);
    }
  }

  /** A std::map is visited in ascending order of its keys. */
  ghost function Ascending(keys: set<Key>): seq<Key>
    decreases keys
  {
    if keys == {} then []
    else
      HasLeast(keys);
      var k :| Least(k, keys);
      [k] + Ascending(keys - {k})
  }

  lemma AscendingStep(keys: set<Key>, k: Key)
    requires Least(k, keys)
    ensures Ascending(keys) == [k] + Ascending(keys - {k})
  {
    var m := Ascending(keys)[0];
    assert Least(m, keys);
  }

  lemma {:induction false} AscendingIs(keys: set<Key>)
    ensures forall k :: k in Ascending(keys) <==> k in keys
    ensures forall i, j :: 0 <= i < j < |Ascending(keys)| ==> Ascending(keys)[i] < Ascending(keys)[j]
    decreases keys
  {
    if keys != {} {
      HasLeast(keys);
      var k :| Least(k, keys);
      var rest := Ascending(keys - {k});
      AscendingStep(keys, k);
      AscendingIs(keys - {k});
      hide Ascending;
      FirstIsLeast(k, keys, rest);
    }
  }

  /** The least key goes before an ascending list of the others. */
  lemma FirstIsLeast(k: Key, keys: set<Key>, rest: seq<Key>)
    requires Least(k, keys) && forall j :: j in rest <==> j in keys - {k}
    requires forall i, j :: 0 <= i < j < |rest| ==> rest[i] < rest[j]
    ensures forall j :: j in [k] + rest <==> j in keys
    ensures forall i, j :: 0 <= i < j < |rest| + 1 ==> ([k] + rest)[i] < ([k] + rest)[j]
  {
    forall i, j | 0 <= i < j < |rest| + 1
      ensures ([k] + rest)[i] < ([k] + rest)[j]
    {
      assert rest[j - 1] in rest;
    }
  }

  /** The calls that tell the callbacks of some keys, in order, about one change. */
  function CallsOf<T, CB>(order: seq<Key>, callbacks: map<Key, CB>, oldValue: T, newValue: T): seq<Call<T, CB>>
    requires forall k :: k in order ==> k in callbacks
  {
    seq(|order|, i requires 0 <= i < |order| => Call(order[i], callbacks[order[i]], oldValue, newValue))
  }

  lemma CallsSnoc<T, CB>(order: seq<Key>, k: Key, callbacks: map<Key, CB>, oldValue: T, newValue: T)
    requires k in callbacks && forall j :: j in order ==> j in callbacks
    ensures CallsOf(order + [k], callbacks, oldValue, newValue) ==
            CallsOf(order, callbacks, oldValue, newValue) + [Call(k, callbacks[k], oldValue, newValue)]
  {}

  lemma CallsNone<T, CB>(callbacks: map<Key, CB>, oldValue: T, newValue: T)
    ensures CallsOf<T, CB>([], callbacks, oldValue, newValue) == []
  {}

  lemma AscendingNone()
    ensures Ascending({}) == []
  {}

  ghost function Notify<T, CB>(callbacks: map<Key, CB>, oldValue: T, newValue: T): seq<Call<T, CB>> {
    AscendingIs(callbacks.Keys);
    CallsOf(Ascending(callbacks.Keys), callbacks, oldValue, newValue)
  }

  /**
   The calls of one change: each registered callback is called once, in ascending
   order of the keys, and is told the old and the new value.
   */
  lemma NotifyExactly<T, CB>(callbacks: map<Key, CB>, oldValue: T, newValue: T)
    ensures var calls := Notify(callbacks, oldValue, newValue);
            && (forall i :: 0 <= i < |calls| ==>
                  && calls[i].key in callbacks && calls[i].callback == callbacks[calls[i].key]
                  && calls[i].oldValue == oldValue && calls[i].newValue == newValue)
            && (forall i, j :: 0 <= i < j < |calls| ==> calls[i].key < calls[j].key)
            && forall key :: key in callbacks ==> exists i :: 0 <= i < |calls| && calls[i].key == key
  {
    var order, calls := Ascending(callbacks.Keys), Notify(callbacks, oldValue, newValue);
    AscendingIs(callbacks.Keys);
    hide Ascending;
    forall key | key in callbacks
      ensures exists i :: 0 <= i < |calls| && calls[i].key == key
    {
      var i :| 0 <= i < |order| && order[i] == key;
      assert calls[i].key == key;
    }
  }

  /** setValue: equal values are ignored; otherwise the callbacks are called before the value changes. */
  ghost function Set<T, CB>(s: VarState<T, CB>, eq: (T, T) -> bool, v: T): VarState<T, CB> {
    if eq(v, s.value) then s
    else VarState(v, s.callbacks, s.calls + Notify(s.callbacks, s.value, v))
  }

  /** fromString: a value that does not convert is ignored. */
  ghost function SetFrom<T, CB>(
    s: VarState<T, CB>, eq: (T, T) -> bool, conv: Node -> Option<T>, n: Node): VarState<T, CB>
  {
    match conv(n)
    case None => s
    case Some(v) => Set(s, eq, v)
  }

  class ConfigVar<T, CB> {
    const name: string
    const typeName: string
    const eq: (T, T) -> bool
    const conv: Node -> Option<T>
    var val: T
    var cbs: map<Key, CB>
    var calls: seq<Call<T, CB>>

    ghost function State(): VarState<T, CB>
      reads this
    {
      VarState(val, cbs, calls)
    }

    constructor (name: string, typeName: string, eq: (T, T) -> bool, conv: Node -> Option<T>, defaultValue: T)
      ensures this.name == Lower(name) && this.typeName == typeName && this.eq == eq && this.conv == conv
      ensures State() == VarState(defaultValue, map[], [])
    {
      this.name := Lower(name);
      this.typeName, this.eq, this.conv := typeName, eq, conv;
      val, cbs, calls := defaultValue, map[], [];
    }

    method SetValue(v: T)
      modifies this
      ensures State() == Set(old(State()), eq, v)
    {
      if eq(v, val) {
        return;
      }
      NotifyAll(v);
      val := v;
    }

    /** The loop of setValue over the callbacks. */
    method NotifyAll(v: T)
      modifies this`calls
      ensures calls == old(calls) + Notify(cbs, val, v)
    {
      AscendingIs(cbs.Keys);
      CallsNone(cbs, val, v);
      AscendingNone();
      hide Ascending, CallsOf, Least;
      var left := cbs.Keys;
      ghost var order: seq<Key> := [];
      while left != {}
        invariant left <= cbs.Keys && order + Ascending(left) == Ascending(cbs.Keys)
        invariant forall k :: k in order ==> k in cbs
        invariant calls == old(calls) + CallsOf(order, cbs, val, v)
        decreases left
      {
        var k := FirstKey(left);
        AscendingStep(left, k);
        Associates(order, [k], Ascending(left - {k}));
        CallsSnoc(order, k, cbs, val, v);
        calls := calls + [Call(k, cbs[k], val, v)];
        order := order + [k];
        left := left - {k};
      }
      assert order + [] == order;
    }

    /** Where an iteration over a std::map starts. */
    static method FirstKey(keys: set<Key>) returns (k: Key)
      requires keys != {}
      ensures Least(k, keys)
    {
      HasLeast(keys);
      k :| k in keys && forall j :: j in keys ==> k <= j;
    }

    method FromString(n: Node) returns (ok: bool)
      modifies this
      ensures State() == SetFrom(old(State()), eq, conv, n)
      ensures ok == conv(n).Some?
    {
      var v := conv(n);
      if v == None {
        return false;
      }
      SetValue(v.value);
      ok := true;
    }

    method AddListener(key: Key, cb: CB)
      modifies this
      ensures State() == old(State()).(callbacks := old(cbs)[key := cb])
    {
      cbs := cbs[key := cb];
    }

    method DelListener(key: Key)
      modifies this
      ensures State() == old(State()).(callbacks := old(cbs) - {key})
    {
      cbs := cbs - {key};
    }

    method CleanListener()
      modifies this
      ensures State() == old(State()).(callbacks := map[])
    {
      cbs := map[];
    }
  }

  // ---------------------------------------------------------------------
  // Runs

  datatype Op<T, CB> = SetOp(v: T) | FromOp(n: Node) | AddOp(key: Key, cb: CB) | DelOp(key: Key) | CleanOp

  ghost function StepOp<T, CB>(
    s: VarState<T, CB>, eq: (T, T) -> bool, conv: Node -> Option<T>, op: Op<T, CB>): VarState<T, CB>
  {
    match op
    case SetOp(v) => Set(s, eq, v)
    case FromOp(n) => SetFrom(s, eq, conv, n)
    case AddOp(key, cb) => s.(callbacks := s.callbacks[key := cb])
    case DelOp(key) => s.(callbacks := s.callbacks - {key})
    case CleanOp => s.(callbacks := map[])
  }

  ghost function RunOps<T, CB>(
    s: VarState<T, CB>, eq: (T, T) -> bool, conv: Node -> Option<T>, ops: seq<Op<T, CB>>): VarState<T, CB>
  {
    if ops == [] then s else StepOp(RunOps(s, eq, conv, ops[..|ops| - 1]), eq, conv, ops[|ops| - 1])
  }

  lemma RunOpsSnoc<T, CB>(
    s: VarState<T, CB>, eq: (T, T) -> bool, conv: Node -> Option<T>, ops: seq<Op<T, CB>>, op: Op<T, CB>)
    ensures RunOps(s, eq, conv, ops + [op]) == StepOp(RunOps(s, eq, conv, ops), eq, conv, op)
  {
    assert (ops + [op])[..|ops|] == ops;
  }

  /** The listener of a key stays registered. */
  predicate Stays<T, CB>(op: Op<T, CB>, key: Key) {
    match op
    case AddOp(k, _) => k != key
    case DelOp(k) => k != key
    case CleanOp => false
    case _ => true
  }

  /** The changes that one listener has been told about. */
  function Seen<T, CB>(calls: seq<Call<T, CB>>, key: Key): seq<(T, T)> {
    if calls == [] then []
    else
      var c := calls[|calls| - 1];
      Seen(calls[..|calls| - 1], key) + if c.key == key then [(c.oldValue, c.newValue)] else []
  }

  /** The changes link end to end, from one value to another. */
  predicate Linked<T(==)>(changes: seq<(T, T)>, first: T, last: T) {
    if changes == [] then first == last
    else changes[|changes| - 1].1 == last && Linked(changes[..|changes| - 1], first, changes[|changes| - 1].0)
  }

  lemma {:induction false} SeenConcat<T, CB>(a: seq<Call<T, CB>>, b: seq<Call<T, CB>>, key: Key)
    ensures Seen(a + b, key) == Seen(a, key) + Seen(b, key)
  {
    if b == [] {
      assert a + b == a;
    } else {
      assert (a + b)[..|a + b| - 1] == a + b[..|b| - 1];
      SeenConcat(a, b[..|b| - 1], key);
    }
  }

  lemma SeenSnoc<T, CB>(calls: seq<Call<T, CB>>, c: Call<T, CB>, key: Key)
    ensures Seen(calls + [c], key) == Seen(calls, key) + if c.key == key then [(c.oldValue, c.newValue)] else []
  {
    assert (calls + [c])[..|calls|] == calls;
  }

  /** Of the calls for distinct keys a listener sees just its own. */
  lemma {:induction false} SeenCalls<T, CB>(
    order: seq<Key>, callbacks: map<Key, CB>, oldValue: T, newValue: T, key: Key)
    requires forall k :: k in order ==> k in callbacks
    requires forall i, j :: 0 <= i < j < |order| ==> order[i] != order[j]
    ensures Seen(CallsOf(order, callbacks, oldValue, newValue), key) ==
            if key in order then [(oldValue, newValue)] else []
  {
    if order != [] {
      var front, last := order[..|order| - 1], order[|order| - 1];
      assert order == front + [last] && last !in front;
      assert forall k :: k in front ==> k in order;
      SeenCalls(front, callbacks, oldValue, newValue, key);
      CallsSnoc(front, last, callbacks, oldValue, newValue);
      hide CallsOf;
      SeenSnoc(CallsOf(front, callbacks, oldValue, newValue), Call(last, callbacks[last], oldValue, newValue), key);
    }
  }

  lemma SeenNotify<T, CB>(callbacks: map<Key, CB>, oldValue: T, newValue: T, key: Key)
    requires key in callbacks
    ensures Seen(Notify(callbacks, oldValue, newValue), key) == [(oldValue, newValue)]
  {
    AscendingIs(callbacks.Keys);
    SeenCalls(Ascending(callbacks.Keys), callbacks, oldValue, newValue, key);
  }

  /** One step: what a listener has seen grows by the change that is made, if one is. */
  lemma SeenStep<T, CB>(s: VarState<T, CB>, eq: (T, T) -> bool, conv: Node -> Option<T>, op: Op<T, CB>, key: Key)
    requires key in s.callbacks && Stays(op, key)
    ensures var t := StepOp(s, eq, conv, op);
            && key in t.callbacks
            && ((Seen(t.calls, key) == Seen(s.calls, key) && t.value == s.value) ||
                (Seen(t.calls, key) == Seen(s.calls, key) + [(s.value, t.value)] && !eq(t.value, s.value)))
  {
    var v := match op case SetOp(v) => Some(v) case FromOp(n) => conv(n) case _ => None;
    if v.Some? && !eq(v.value, s.value) {
      SeenConcat(s.calls, Notify(s.callbacks, s.value, v.value), key);
      SeenNotify(s.callbacks, s.value, v.value, key);
    }
  }

  /**
   The listener chain, over every run of operations that leave the listener
   registered: the changes it sees after s link end to end from the value in s to
   the current value, and each is a change from one value to an unequal one.
   */
  lemma {:induction false} ListenerChain<T, CB>(
    s: VarState<T, CB>, eq: (T, T) -> bool, conv: Node -> Option<T>, ops: seq<Op<T, CB>>, key: Key)
    returns (changes: seq<(T, T)>)
    requires key in s.callbacks && forall op :: op in ops ==> Stays(op, key)
    ensures var t := RunOps(s, eq, conv, ops);
            && key in t.callbacks
            && Seen(t.calls, key) == Seen(s.calls, key) + changes
            && Linked(changes, s.value, t.value)
            && forall c :: c in changes ==> !eq(c.1, c.0)
  {
    changes := [];
    if ops == [] {
      assert Seen(s.calls, key) + [] == Seen(s.calls, key);
    } else {
      var front, op := ops[..|ops| - 1], ops[|ops| - 1];
      var m := RunOps(s, eq, conv, front);
      changes := ListenerChain(s, eq, conv, front, key);
      SeenStep(m, eq, conv, op, key);
      var t := StepOp(m, eq, conv, op);
      if Seen(t.calls, key) != Seen(m.calls, key) {
        var c := (m.value, t.value);
        Associates(Seen(s.calls, key), changes, [c]);
        assert (changes + [c])[..|changes|] == changes;
        changes := changes + [c];
      }
    }
  }
}
