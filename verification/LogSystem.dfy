/** The registry with the "logs" variable and any others, and the manager that the logging listener works on. */
module LogSystems {
  import opened Common
  import opened ConfigLogs
  import opened ConfigPaths
  import opened ConfigStore
  import opened ConfigVars
  import opened ListenerCalls
  import opened LogActivity
  import opened LogCodec
  import opened LogDefines
  import opened LogHistory
  import opened LogItems
  import opened LogLevels
  import opened LoggerManagers
  import opened Loggers
  import opened Yaml

  class LogSystem {
    const parse: Parser
    const config: Config<Value, Callback>
    const variable: ConfigVar<Value, Callback>
    const manager: LoggerManager

    ghost predicate Valid()
      reads this, config, config.datas.Values, variable, manager, manager.Repr
    {
      && config.Valid() && "logs" in config.datas && config.datas["logs"] == variable
      && variable.eq == VALUE_EQ && variable.conv == ValueConv(parse)
      && AllTyped(variable.State()) && Registered(variable.cbs)
      && Apart() && manager.Valid()
    }

    /** The manager's objects are its own. */
    ghost predicate Apart()
      reads this, config, manager
    {
      && this !in manager.Repr && config !in manager.Repr
      && forall n :: n in config.datas ==> config.datas[n] !in manager.Repr
    }

    /** The value of the variable, and the loggers. */
    ghost function State(): System
      requires Valid()
      reads this, config, config.datas.Values, variable, manager, manager.Repr
    {
      System(variable.val.defines, manager.States())
    }

    lemma ObjectsApart()
      requires Valid()
      ensures variable in config.datas.Values && Apart()
    {
      assert "logs" in config.datas;
    }

    /** The registry with just the "logs" variable, its listener registered. */
    static method NewRegistry(parse: Parser)
      returns (config: Config<Value, Callback>, variable: ConfigVar<Value, Callback>)
      ensures fresh(config) && fresh(variable) && config.Valid() && config.datas == map["logs" := variable]
      ensures variable.eq == VALUE_EQ && variable.conv == ValueConv(parse)
      ensures variable.State() == VarState(LogsValue(INITIAL.defines), map[LOG_KEY := LogIniter], [])
    {
      config := new Config<Value, Callback>();
      var none: Defines := map[];
      var r := config.LookupDefault("logs", "std::set<LogDefine>", VALUE_EQ, ValueConv(parse), LogsValue(none));
      variable := r.v;
      variable.AddListener(LOG_KEY, LogIniter);
    }

    constructor (parse: Parser)
      ensures Valid() && fresh(config) && fresh(variable) && fresh(manager) && fresh(manager.Repr)
      ensures fresh(config.datas.Values)
      ensures this.parse == parse && State() == INITIAL && variable.calls == []
    {
      hide LoggerManager.Valid, LoggerManager.States, Config.Valid, ConfigVar.State, AllTyped, Registered;
      var c, v := NewRegistry(parse);
      var m := new LoggerManager();
      JustMade(v);
      this.parse, config, variable, manager := parse, c, v, m;
    }

    static lemma JustMade(v: ConfigVar<Value, Callback>)
      requires v.State() == VarState(LogsValue(INITIAL.defines), map[LOG_KEY := LogIniter], [])
      ensures AllTyped(v.State()) && Registered(v.cbs) && v.val == LogsValue(INITIAL.defines) && v.calls == []
    {}

    /** Any variable is looked up, and made if there is none of its name. */
    method Lookup(name: string, typeName: string, eq: (Value, Value) -> bool, conv: Node -> Option<Value>, value: Value)
      returns (r: LookupResult<Value, Callback>)
      requires Valid()
      modifies config
      ensures Valid() && State() == old(State())
      ensures fresh(config.datas.Values - old(config.datas.Values))
      ensures config.Types() == Register(old(config.Types()), name, typeName)
      ensures r.Found? <==> name in config.Types() && config.Types()[name] == typeName
      ensures r.Found? ==> name in config.datas && config.datas[name] == r.v
    {
      hide LoggerManager.Valid, LoggerManager.States, Registered, Typed, Register, Allowed, Lower;
      r := config.LookupDefault(name, typeName, eq, conv, value);
    }

    /** Another listener of the variable comes or goes. */
    method AddOther(key: Key, id: nat)
      requires Valid() && key != LOG_KEY
      modifies variable
      ensures Valid() && State() == old(State())
      ensures variable.cbs == old(variable.cbs)[key := Other(id)]
    {
      hide LoggerManager.Valid, LoggerManager.States, Typed;
      variable.AddListener(key, Other(id));
    }

    method DelOther(key: Key)
      requires Valid() && key != LOG_KEY
      modifies variable
      ensures Valid() && State() == old(State())
      ensures variable.cbs == old(variable.cbs) - {key}
    {
      hide LoggerManager.Valid, LoggerManager.States, Typed;
      variable.DelListener(key);
    }

    /** One recorded call is carried out: the logging listener works on the manager. */
    method Perform(c: ValueCall, notice: LogEvent) returns (out: seq<Write>)
      requires Valid() && Typed(c) && Proper(CallOf(c))
      modifies manager.Repr
      ensures Valid() && fresh(manager.Repr - old(manager.Repr))
      ensures manager.States() == Replay(old(manager.States()), Change(CallOf(c)))
      ensures "root" in old(manager.States()) && out == Notices(old(manager.States()), Change(CallOf(c)), notice)
    {
      hide LoggerManager.Valid, LoggerManager.States, OnChange, Deliver, Buildable, Replay, Notices;
      hide Registered, AllTyped;
      manager.RootIsThere();
      ghost var ls := manager.States();
      ChangeIs(ls, CallOf(c), notice);
      out := [];
      if c.callback.LogIniter? {
        out := manager.OnLogDefinesChanged(c.oldValue.defines, c.newValue.defines, notice);
      }
    }

    /** The calls recorded since some moment are carried out, in order. */
    method Dispatch(start: nat, notice: LogEvent) returns (out: seq<Write>)
      requires Valid() && start <= |variable.calls| && AllProper(Plain(variable.State()).calls[start..])
      modifies manager.Repr
      ensures Valid() && fresh(manager.Repr - old(manager.Repr))
      ensures manager.States() == Replay(old(manager.States()), Seen(Plain(variable.State()).calls[start..], LOG_KEY))
      ensures "root" in old(manager.States())
      ensures out == Notices(old(manager.States()), Seen(Plain(variable.State()).calls[start..], LOG_KEY), notice)
    {
      hide LoggerManager.Valid, LoggerManager.States, Replay, Notices, Seen, Proper, Change, CallOf, Registered;
      manager.RootIsThere();
      out := [];
      ghost var calls := Plain(variable.State()).calls[start..];
      ghost var ls := manager.States();
      NothingSeen(ls, notice);
      assert calls[..0] == [];
      for k := start to |variable.calls|
        invariant Valid() && fresh(manager.Repr - old(manager.Repr))
        invariant manager.States() == Replay(ls, Seen(calls[..k - start], LOG_KEY))
        invariant out == Notices(ls, Seen(calls[..k - start], LOG_KEY), notice)
      {
        ghost var i := k - start;
        assert calls[i] == CallOf(variable.calls[k]);
        var w := Perform(variable.calls[k], notice);
        SeenOne(calls, i);
        ReplayAppend(ls, Seen(calls[..i], LOG_KEY), Change(calls[i]));
        NoticesAppend(ls, Seen(calls[..i], LOG_KEY), Change(calls[i]), notice);
        out := out + w;
      }
      assert calls[..|calls|] == calls;
    }

    /** setValue of the variable, with the work of its listener. */
    method SetValue(v: Defines, notice: LogEvent) returns (out: seq<Write>)
      requires Valid() && Buildable(v)
      modifies variable, manager.Repr
      ensures Valid() && fresh(manager.Repr - old(manager.Repr))
      ensures Plain(variable.State()) == Set(Plain(old(variable.State())), LOGS_EQ, v)
      ensures State() == Step(old(State()), v)
      ensures "root" in old(State()).loggers && out == Report(old(State()), v, notice)
    {
      hide LoggerManager.Valid, LoggerManager.States, Buildable, AllProper, Registered, AllTyped, Plain;
      hide Set, Step, Steps, Report, Reports, Notices, Replay, SameDefines, Seen;
      manager.RootIsThere();
      ghost var s, ls := Plain(variable.State()), manager.States();
      var start := |variable.calls|;
      PlainIs(variable.State());
      PlainSet(variable.State(), v);
      ghost var calls := DrivenBySet(s, ls, v, notice);
      OneReport(State(), v, notice);
      variable.SetValue(LogsValue(v));
      PlainIs(variable.State());
      assert Plain(variable.State()).calls[start..] == calls;
      out := Dispatch(start, notice);
    }

    /** LoadFromYaml of the registry, with the work of the listener. */
    method Load(root: Node, notice: LogEvent) returns (out: seq<Write>)
      requires Valid()
      modifies config.datas.Values, manager.Repr
      ensures Valid() && fresh(manager.Repr - old(manager.Repr)) && config.datas == old(config.datas)
      ensures forall n :: n in config.datas ==>
                var v := config.datas[n];
                v.State() == ConfigStore.Load(n, v.eq, v.conv, ListedIn(root), old(v.State()))
      ensures State() == Steps(old(State()), Settings(parse, ListedIn(root)))
      ensures "root" in old(State()).loggers
      ensures out == Reports(old(State()), Settings(parse, ListedIn(root)), notice)
    {
      hide LoggerManager.Valid, LoggerManager.States, AllProper, ConfigStore.Load, Registered, AllTyped, Plain, Allowed;
      hide Notices, Replay, Steps, Reports, Seen, Settings, ListedIn, ValueConv;
      manager.RootIsThere();
      ghost var s, ls := Plain(variable.State()), manager.States();
      PlainIs(variable.State());
      ghost var calls := DrivenByLoad(parse, ListedIn(root), s, ls, notice);
      var start := |variable.calls|;
      LoadVariables(root);
      PlainIs(variable.State());
      assert Plain(variable.State()).calls[start..] == calls;
      out := Dispatch(start, notice);
    }

    /** The part of a load that concerns the registry. */
    method LoadVariables(root: Node)
      requires Valid()
      modifies config.datas.Values
      ensures Valid() && config.datas == old(config.datas) && manager.States() == old(manager.States())
      ensures forall n :: n in config.datas ==>
                var v := config.datas[n];
                v.State() == ConfigStore.Load(n, v.eq, v.conv, ListedIn(root), old(v.State()))
      ensures Plain(variable.State()) ==
              ConfigStore.Load("logs", LOGS_EQ, LogsConv(parse), ListedIn(root), Plain(old(variable.State())))
    {
      hide LoggerManager.Valid, LoggerManager.States, ConfigStore.Load, Registered, AllTyped, Plain, Allowed;
      ghost var s := variable.State();
      PlainIs(s);
      PlainLoad(parse, ListedIn(root), s);
      LoadGrows(parse, ListedIn(root), Plain(s));
      config.LoadFromYaml(root);
      assert variable.State() == ConfigStore.Load("logs", VALUE_EQ, ValueConv(parse), ListedIn(root), s);
      PlainIs(variable.State());
    }

    /** All loggers are dumped. */
    method Dump() returns (node: Node)
      requires Valid()
      ensures exists names :: Enumerates(names, State().loggers.Keys) && node == DumpLoggers(State().loggers, names)
    {
      hide LoggerManager.Valid, LoggerManager.States, Registered, AllTyped, DumpLoggers;
      node := manager.ToYaml();
      ghost var names :| Enumerates(names, manager.States().Keys) && node == DumpLoggers(manager.States(), names);
      assert Enumerates(names, State().loggers.Keys) && node == DumpLoggers(State().loggers, names);
    }

    /** The logger of a name is asked for, and made if there is none. */
    method GetLogger(name: string) returns (logger: Logger)
      requires Valid()
      modifies manager.Repr
      ensures Valid() && fresh(manager.Repr - old(manager.Repr))
      ensures State() == System(old(State()).defines, Asked(old(State()).loggers, name))
      ensures name in manager.loggers && logger == manager.loggers[name]
    {
      hide LoggerManager.Valid, LoggerManager.States, Registered, AllTyped, StateOf;
      manager.RootIsThere();
      logger := manager.GetLogger(name);
    }

    /** An event on the logger of a name, which is made if there is none. */
    method Log(name: string, level: Level, event: LogEvent) returns (out: seq<Write>)
      requires Valid()
      modifies manager.Repr
      ensures Valid() && fresh(manager.Repr - old(manager.Repr))
      ensures State() == System(old(State()).defines, Asked(old(State()).loggers, name))
      ensures "root" in State().loggers && out == Deliver(State().loggers, name, level, event)
    {
      hide LoggerManager.Valid, LoggerManager.States, Deliver, StateOf, Registered, AllTyped;
      manager.RootIsThere();
      var _ := manager.GetLogger(name);
      manager.RootIsThere();
      out := manager.Log(name, level, event);
    }
  }
}
