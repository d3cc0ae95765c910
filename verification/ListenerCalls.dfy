/** The recorded calls of the logging listener: what carrying them out does to the loggers. */
module ListenerCalls {
  import opened Common
  import opened ConfigLogs
  import opened ConfigStore
  import opened ConfigVars
  import opened LogDefines
  import opened LogHistory
  import opened LogItems
  import opened LogLevels
  import opened Yaml

  /** The key of the logging listener. */
  const LOG_KEY: Key := 0xF1E231

  /** The callbacks of the variable: the logging listener, and any others. */
  datatype Callback = LogIniter | Other(id: nat)

  type LogCall = Call<Defines, Callback>

  /** The logging listener is registered, under its own key only. */
  predicate Registered(callbacks: map<Key, Callback>) {
    && LOG_KEY in callbacks
    && forall k :: k in callbacks ==> (callbacks[k].LogIniter? <==> k == LOG_KEY)
  }

  /** A call that a registered callback gets, about a value that the listener can build. */
  predicate Proper(c: LogCall) {
    (c.callback.LogIniter? <==> c.key == LOG_KEY) && Buildable(c.newValue)
  }

  predicate AllProper(calls: seq<LogCall>) {
    forall c :: c in calls ==> Proper(c)
  }

  lemma NotifyProper(callbacks: map<Key, Callback>, oldValue: Defines, newValue: Defines)
    requires Registered(callbacks) && Buildable(newValue)
    ensures AllProper(Notify(callbacks, oldValue, newValue))
  {
    AscendingIs(callbacks.Keys);
    hide Buildable, Ascending;
  }

  /** The change that a call tells the logging listener about, if it is for it. */
  function Change(c: LogCall): seq<(Defines, Defines)> {
    if c.callback.LogIniter? then [(c.oldValue, c.newValue)] else []
  }

  /** One more call, as the logging listener sees it. */
  lemma SeenOne(calls: seq<LogCall>, k: nat)
    requires k < |calls| && Proper(calls[k])
    ensures Seen(calls[..k + 1], LOG_KEY) == Seen(calls[..k], LOG_KEY) + Change(calls[k])
  {
    assert calls[..k + 1][..k] == calls[..k];
  }

  /** What the listener reports on root, change by change. */
  function Notices(ls: LoggerMap, changes: seq<(Defines, Defines)>, notice: LogEvent): seq<Write>
    requires "root" in ls
  {
    if changes == [] then []
    else
      RootKept(ls, changes[..|changes| - 1]);
      Notices(ls, changes[..|changes| - 1], notice)
      + Deliver(Replay(ls, changes[..|changes| - 1]), "root", Info, notice)
  }

  lemma {:induction false} RootKept(ls: LoggerMap, changes: seq<(Defines, Defines)>)
    requires "root" in ls
    ensures "root" in Replay(ls, changes)
  {
    if changes != [] {
      var n := |changes| - 1;
      RootKept(ls, changes[..n]);
      OnChangeAt(Replay(ls, changes[..n]), changes[n].0, changes[n].1, "root");
      hide OnChange;
    }
  }

  lemma {:induction false} NoticesAppend(
    ls: LoggerMap, a: seq<(Defines, Defines)>, b: seq<(Defines, Defines)>, notice: LogEvent)
    requires "root" in ls
    ensures "root" in Replay(ls, a)
    ensures Notices(ls, a + b, notice) == Notices(ls, a, notice) + Notices(Replay(ls, a), b, notice)
  {
    hide Replay, Deliver;
    RootKept(ls, a);
    if b == [] {
      assert a + b == a;
    } else {
      var n := |b| - 1;
      NoticesAppend(ls, a, b[..n], notice);
      assert (a + b)[..|a + b| - 1] == a + b[..n];
      ReplayAppend(ls, a, b[..n]);
    }
  }

  lemma NothingSeen(ls: LoggerMap, notice: LogEvent)
    requires "root" in ls
    ensures Seen<Defines, Callback>([], LOG_KEY) == [] && Replay(ls, []) == ls && Notices(ls, [], notice) == []
  {}

  lemma ChangeIs(ls: LoggerMap, c: LogCall, notice: LogEvent)
    requires "root" in ls
    ensures Replay(ls, Change(c)) == if c.callback.LogIniter? then OnChange(ls, c.oldValue, c.newValue) else ls
    ensures Notices(ls, Change(c), notice) == if c.callback.LogIniter? then Deliver(ls, "root", Info, notice) else []
  {
    hide OnChange, Deliver;
    ReplaySnoc(ls, [], c.oldValue, c.newValue);
    assert Change(c) != [] ==> Change(c)[..0] == [];
    assert [] + [(c.oldValue, c.newValue)] == [(c.oldValue, c.newValue)];
  }

  // ---------------------------------------------------------------------
  // Steps, with what the listener reports

  /** What the listener reports on root when a value is set. */
  function Report(s: System, v: Defines, notice: LogEvent): seq<Write>
    requires "root" in s.loggers
  {
    if SameDefines(v, s.defines) then [] else Deliver(s.loggers, "root", Info, notice)
  }

  /** The same for values that are set one after another. */
  function Reports(s: System, vs: seq<Defines>, notice: LogEvent): seq<Write>
    requires "root" in s.loggers
  {
    if vs == [] then []
    else
      StepsKeepRoot(s, vs[..|vs| - 1]);
      Reports(s, vs[..|vs| - 1], notice) + Report(Steps(s, vs[..|vs| - 1]), vs[|vs| - 1], notice)
  }

  lemma {:induction false} StepsKeepRoot(s: System, vs: seq<Defines>)
    requires "root" in s.loggers
    ensures "root" in Steps(s, vs).loggers
  {
    if vs != [] {
      var n := |vs| - 1;
      var t := Steps(s, vs[..n]);
      StepsKeepRoot(s, vs[..n]);
      OnChangeAt(t.loggers, t.defines, vs[n], "root");
      hide OnChange, SameDefines;
    }
  }

  lemma {:induction false} ReportsAppend(s: System, vs: seq<Defines>, ws: seq<Defines>, notice: LogEvent)
    requires "root" in s.loggers
    ensures "root" in Steps(s, vs).loggers
    ensures Reports(s, vs + ws, notice) == Reports(s, vs, notice) + Reports(Steps(s, vs), ws, notice)
  {
    StepsKeepRoot(s, vs);
    hide *;
    if ws == [] {
      assert vs + ws == vs;
      NoReport(Steps(s, vs), notice);
    } else {
      var n := |ws| - 1;
      ReportsAppend(s, vs, ws[..n], notice);
      LastReport(s, vs + ws, notice);
      LastReport(Steps(s, vs), ws, notice);
      LastOfConcat(vs, ws);
      StepsAppend(s, vs, ws[..n]);
      Associates(Reports(s, vs, notice), Reports(Steps(s, vs), ws[..n], notice),
                 Report(Steps(Steps(s, vs), ws[..n]), ws[n], notice));
    }
  }

  lemma NoReport(s: System, notice: LogEvent)
    requires "root" in s.loggers
    ensures Reports(s, [], notice) == []
  {}

  lemma LastReport(s: System, vs: seq<Defines>, notice: LogEvent)
    requires "root" in s.loggers && vs != []
    ensures var front := vs[..|vs| - 1];
            && "root" in Steps(s, front).loggers
            && Reports(s, vs, notice) == Reports(s, front, notice) + Report(Steps(s, front), vs[|vs| - 1], notice)
  {
    StepsKeepRoot(s, vs[..|vs| - 1]);
    hide Report, Steps;
  }

  lemma OneReport(s: System, v: Defines, notice: LogEvent)
    requires "root" in s.loggers
    ensures Steps(s, [v]) == Step(s, v) && Reports(s, [v], notice) == Report(s, v, notice)
  {
    hide Step, Report;
    assert [v][..0] == [];
  }

  /**
   Between two states of the variable some values were set, and some calls
   recorded: carrying the calls out is a step of the run for each value, and writes
   the reports.
   */
  predicate Driven(
    s: VarState<Defines, Callback>, ls: LoggerMap, t: VarState<Defines, Callback>, vs: seq<Defines>,
    calls: seq<LogCall>, notice: LogEvent)
    requires "root" in ls
  {
    && t.callbacks == s.callbacks && t.calls == s.calls + calls && AllProper(calls)
    && System(t.value, Replay(ls, Seen(calls, LOG_KEY))) == Steps(System(s.value, ls), vs)
    && Notices(ls, Seen(calls, LOG_KEY), notice) == Reports(System(s.value, ls), vs, notice)
  }

  lemma DrivenByNothing(s: VarState<Defines, Callback>, ls: LoggerMap, notice: LogEvent)
    requires "root" in ls
    ensures Driven(s, ls, s, [], [], notice)
  {
    NothingSeen(ls, notice);
    StepsNone(System(s.value, ls));
    assert s.calls + [] == s.calls;
    hide Replay, Seen, Notices, Steps;
  }

  /** One setValue. */
  lemma DrivenBySet(s: VarState<Defines, Callback>, ls: LoggerMap, v: Defines, notice: LogEvent)
    returns (calls: seq<LogCall>)
    requires "root" in ls && Registered(s.callbacks) && Buildable(v)
    ensures Driven(s, ls, Set(s, LOGS_EQ, v), [v], calls, notice)
  {
    hide Registered, Proper, Buildable, OnChange, Deliver, Notify, SameDefines, Replay, Notices, Reports, Steps, Seen;
    OneReport(System(s.value, ls), v, notice);
    NothingSeen(ls, notice);
    calls := [];
    assert s.calls + [] == s.calls;
    if !SameDefines(v, s.value) {
      calls := Notify(s.callbacks, s.value, v);
      NotifyProper(s.callbacks, s.value, v);
      RegisteredKey(s.callbacks);
      SeenNotify(s.callbacks, s.value, v, LOG_KEY);
      var change := Call(LOG_KEY, LogIniter, s.value, v);
      ChangeIs(ls, change, notice);
      assert Seen(calls, LOG_KEY) == Change(change);
    }
  }

  lemma RegisteredKey(callbacks: map<Key, Callback>)
    requires Registered(callbacks)
    ensures LOG_KEY in callbacks
  {}

  /** One after the other. */
  lemma DrivenTwice(
    s: VarState<Defines, Callback>, ls: LoggerMap, m: VarState<Defines, Callback>, vs: seq<Defines>, a: seq<LogCall>,
    t: VarState<Defines, Callback>, ws: seq<Defines>, b: seq<LogCall>, notice: LogEvent)
    requires "root" in ls && Driven(s, ls, m, vs, a, notice)
    requires "root" in Replay(ls, Seen(a, LOG_KEY)) && Driven(m, Replay(ls, Seen(a, LOG_KEY)), t, ws, b, notice)
    ensures Driven(s, ls, t, vs + ws, a + b, notice)
  {
    hide Proper, Seen, Replay, Notices, Reports, Steps;
    Associates(s.calls, a, b);
    SeenConcat(a, b, LOG_KEY);
    ReplayAppend(ls, Seen(a, LOG_KEY), Seen(b, LOG_KEY));
    NoticesAppend(ls, Seen(a, LOG_KEY), Seen(b, LOG_KEY), notice);
    StepsAppend(System(s.value, ls), vs, ws);
    ReportsAppend(System(s.value, ls), vs, ws, notice);
  }

  /** One load. */
  lemma {:induction false} DrivenByLoad(
    parse: Parser, entries: seq<(string, Node)>, s: VarState<Defines, Callback>, ls: LoggerMap, notice: LogEvent)
    returns (calls: seq<LogCall>)
    requires "root" in ls && Registered(s.callbacks)
    ensures Driven(s, ls, Load("logs", LOGS_EQ, LogsConv(parse), entries, s), Settings(parse, entries), calls, notice)
  {
    hide Driven, Registered, LogsFrom, Set, Replay, Seen;
    calls := [];
    if entries == [] {
      DrivenByNothing(s, ls, notice);
    } else {
      var front, e := entries[..|entries| - 1], entries[|entries| - 1];
      var m := Load("logs", LOGS_EQ, LogsConv(parse), front, s);
      calls := DrivenByLoad(parse, front, s, ls, notice);
      if Sets(e, "logs", LogsConv(parse)) {
        var v := LogsFrom(parse, e.1).value;
        FromIsBuildable(parse, e.1);
        RootKept(ls, Seen(calls, LOG_KEY));
        KeepsCallbacks(s, ls, m, Settings(parse, front), calls, notice);
        var more := DrivenBySet(m, Replay(ls, Seen(calls, LOG_KEY)), v, notice);
        DrivenTwice(s, ls, m, Settings(parse, front), calls, Set(m, LOGS_EQ, v), [v], more, notice);
        calls := calls + more;
      } else {
        assert Settings(parse, front) + [] == Settings(parse, front);
      }
    }
  }

  lemma KeepsCallbacks(
    s: VarState<Defines, Callback>, ls: LoggerMap, t: VarState<Defines, Callback>, vs: seq<Defines>,
    calls: seq<LogCall>, notice: LogEvent)
    requires "root" in ls && Driven(s, ls, t, vs, calls, notice)
    ensures t.callbacks == s.callbacks && t.calls == s.calls + calls
  {}

  // ---------------------------------------------------------------------
  // The variable among others

  /** All variables of the registry share this type; "logs" holds definitions. */
  datatype Value = LogsValue(defines: Defines) | OtherValue(text: string)

  type ValueCall = Call<Value, Callback>

  const VALUE_EQ := (a: Value, b: Value) => a.LogsValue? && b.LogsValue? && SameDefines(a.defines, b.defines)

  function ValueConv(parse: Parser): Node -> Option<Value> {
    n => match LogsFrom(parse, n)
      case Some(v) => Some(LogsValue(v))
      case None => None
  }

  predicate Typed(c: ValueCall) {
    c.oldValue.LogsValue? && c.newValue.LogsValue?
  }

  predicate AllTyped(s: VarState<Value, Callback>) {
    s.value.LogsValue? && forall c :: c in s.calls ==> Typed(c)
  }

  function CallOf(c: ValueCall): LogCall
    requires Typed(c)
  {
    Call(c.key, c.callback, c.oldValue.defines, c.newValue.defines)
  }

  function LogCalls(calls: seq<ValueCall>): (r: seq<LogCall>)
    requires forall c :: c in calls ==> Typed(c)
    ensures |r| == |calls|
  {
    seq(|calls|, i requires 0 <= i < |calls| => CallOf(calls[i]))
  }

  /** The variable by its definitions. */
  function Plain(s: VarState<Value, Callback>): VarState<Defines, Callback>
    requires AllTyped(s)
  {
    VarState(s.value.defines, s.callbacks, LogCalls(s.calls))
  }

  lemma PlainIs(s: VarState<Value, Callback>)
    requires AllTyped(s)
    ensures var t := Plain(s); t.value == s.value.defines && t.callbacks == s.callbacks && |t.calls| == |s.calls|
  {}

  lemma PlainNotify(callbacks: map<Key, Callback>, oldValue: Defines, newValue: Defines)
    ensures var calls := Notify(callbacks, LogsValue(oldValue), LogsValue(newValue));
            (forall c :: c in calls ==> Typed(c)) && LogCalls(calls) == Notify(callbacks, oldValue, newValue)
  {
    AscendingIs(callbacks.Keys);
    hide Ascending;
  }

  lemma LogCallsConcat(a: seq<ValueCall>, b: seq<ValueCall>)
    requires forall c :: c in a + b ==> Typed(c)
    ensures (forall c :: c in a ==> Typed(c)) && (forall c :: c in b ==> Typed(c))
    ensures LogCalls(a + b) == LogCalls(a) + LogCalls(b)
  {
    assert forall c :: c in a ==> c in a + b;
    assert forall c :: c in b ==> c in a + b;
  }

  /** Setting a value of its own type keeps the variable typed, and is setting the definitions. */
  lemma PlainSet(s: VarState<Value, Callback>, v: Defines)
    requires AllTyped(s)
    ensures var t := Set(s, VALUE_EQ, LogsValue(v)); AllTyped(t) && Plain(t) == Set(Plain(s), LOGS_EQ, v)
  {
    hide Notify, SameDefines, Typed, LogCalls;
    if !SameDefines(v, s.value.defines) {
      PlainNotify(s.callbacks, s.value.defines, v);
      LogCallsConcat(s.calls, Notify(s.callbacks, s.value, LogsValue(v)));
    }
  }

  lemma {:induction false} PlainLoad(parse: Parser, entries: seq<(string, Node)>, s: VarState<Value, Callback>)
    requires AllTyped(s)
    ensures var t := Load("logs", VALUE_EQ, ValueConv(parse), entries, s);
            AllTyped(t) && Plain(t) == Load("logs", LOGS_EQ, LogsConv(parse), entries, Plain(s))
  {
    hide AllTyped, Plain, LogsFrom, Set;
    if entries != [] {
      var front, e := entries[..|entries| - 1], entries[|entries| - 1];
      PlainLoad(parse, front, s);
      if Sets(e, "logs", LogsConv(parse)) {
        PlainSet(Load("logs", VALUE_EQ, ValueConv(parse), front, s), LogsFrom(parse, e.1).value);
      }
    }
  }
}
