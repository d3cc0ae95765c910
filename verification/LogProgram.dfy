/** Whole programs: everything the loggers write, from what is loaded, set and logged. */
module LogPrograms {
  import opened Common
  import opened ConfigLogs
  import opened ConfigStore
  import opened ConfigVars
  import opened ListenerCalls
  import opened LogActivity
  import opened LogCodec
  import opened LogDefines
  import opened LogHistory
  import opened LogItems
  import opened LogLevels
  import opened LogReload
  import opened LogRendering
  import opened LogSystems
  import opened Yaml

  /**
   What a program does with the library: it loads trees, sets the "logs" variable,
   looks up other variables, adds and removes other listeners, asks for loggers and
   logs.  The listener's report of a change carries a notice.
   */
  datatype Deed =
    | LoadDeed(root: Node, notice: LogEvent)
    | SetDeed(v: Defines, notice: LogEvent)
    | LookupDeed(
        name: string, typeName: string, eq: (Value, Value) -> bool, conv: Node -> Option<Value>, value: Value)
    | AddDeed(key: Key, id: nat)
    | DelDeed(key: Key)
    | AskDeed(name: string)
    | LogDeed(name: string, level: Level, event: LogEvent)

  /** The listener can build what is set directly, and stays registered. */
  predicate Allows(deed: Deed) {
    match deed
    case SetDeed(v, _) => Buildable(v)
    case AddDeed(key, _) => key != LOG_KEY
    case DelDeed(key) => key != LOG_KEY
    case _ => true
  }

  /** The definitions that a deed sets. */
  function Brought(parse: Parser, deed: Deed): seq<Defines> {
    match deed
    case LoadDeed(root, _) => Settings(parse, ListedIn(root))
    case SetDeed(v, _) => [v]
    case _ => []
  }

  function AllBrought(parse: Parser, deeds: seq<Deed>): seq<Defines> {
    if deeds == [] then []
    else AllBrought(parse, deeds[..|deeds| - 1]) + Brought(parse, deeds[|deeds| - 1])
  }

  /** The reports on root for the values from some index on. */
  function Reported(vs: seq<Defines>, from: nat, notice: LogEvent): seq<Write>
    requires from <= |vs|
  {
    if from == |vs| then []
    else
      var n := |vs| - 1;
      Reported(vs[..n], from, notice)
      + if AllAlike(vs[n], Before(vs, n)) then [] else Configured(vs[..n], "root", Info, notice)
  }

  /** What one deed writes, when the values vs have been set before. */
  function Written(parse: Parser, vs: seq<Defines>, deed: Deed): seq<Write> {
    match deed
    case LoadDeed(root, notice) => Reported(vs + Settings(parse, ListedIn(root)), |vs|, notice)
    case SetDeed(v, notice) => Reported(vs + [v], |vs|, notice)
    case LogDeed(name, level, event) => Configured(vs, name, level, event)
    case _ => []
  }

  /** All that a program writes, in order, from the values alone. */
  function Output(parse: Parser, deeds: seq<Deed>): seq<Write> {
    if deeds == [] then []
    else
      var front := deeds[..|deeds| - 1];
      Output(parse, front) + Written(parse, AllBrought(parse, front), deeds[|deeds| - 1])
  }

  /** The variable holds a value that counts as the latest one, so the next is compared with either alike. */
  lemma ComparedAlike(vs: seq<Defines>, v: Defines)
    ensures SameDefines(v, Run(vs).defines) <==> AllAlike(v, Before(vs, |vs|))
  {
    ValueIsLatest(vs);
    SameIsAlike();
    hide Run, SameDefines;
  }

  lemma ReportFollows(s: System, vs: seq<Defines>, v: Defines, notice: LogEvent)
    requires Follows(s, vs)
    ensures "root" in s.loggers
    ensures Report(s, v, notice) ==
            if AllAlike(v, Before(vs, |vs|)) then [] else Configured(vs, "root", Info, notice)
  {
    ComparedAlike(vs, v);
    DeliveryFollows(s, vs, "root", Info, notice);
    hide Run, Deliver, SameDefines, AllAlike;
    assert Asked(s.loggers, "root") == s.loggers;
  }

  lemma {:induction false} StepsFollow(s: System, vs: seq<Defines>, ws: seq<Defines>)
    requires Follows(s, vs)
    ensures Follows(Steps(s, ws), vs + ws)
  {
    hide Follows, Step;
    if ws == [] {
      assert vs + ws == vs;
    } else {
      var n := |ws| - 1;
      StepsFollow(s, vs, ws[..n]);
      FollowsStep(Steps(s, ws[..n]), vs + ws[..n], ws[n]);
      assert vs + ws == vs + ws[..n] + [ws[n]];
    }
  }

  lemma LastReported(vs: seq<Defines>, from: nat, notice: LogEvent)
    requires from < |vs|
    ensures var n := |vs| - 1;
            Reported(vs, from, notice) ==
            Reported(vs[..n], from, notice)
            + if AllAlike(vs[n], Before(vs[..n], n)) then [] else Configured(vs[..n], "root", Info, notice)
  {
    hide AllAlike, Configured;
    assert Before(vs[..|vs| - 1], |vs| - 1) == Before(vs, |vs| - 1);
  }

  lemma NothingReported(vs: seq<Defines>, notice: LogEvent)
    ensures Reported(vs, |vs|, notice) == []
  {}

  /** The reports of the listener, from the values alone. */
  lemma {:induction false} ReportsFollow(s: System, vs: seq<Defines>, ws: seq<Defines>, notice: LogEvent)
    requires Follows(s, vs)
    ensures "root" in s.loggers && Reports(s, ws, notice) == Reported(vs + ws, |vs|, notice)
  {
    FollowsRoot(s, vs);
    hide *;
    if ws == [] {
      assert vs + ws == vs;
      NoReport(s, notice);
      NothingReported(vs, notice);
    } else {
      var front, us := ws[..|ws| - 1], vs + ws;
      LastOfConcat(vs, ws);
      ReportsFollow(s, vs, front, notice);
      StepsFollow(s, vs, front);
      ReportFollows(Steps(s, front), vs + front, ws[|ws| - 1], notice);
      LastReport(s, ws, notice);
      LastReported(us, |vs|, notice);
    }
  }

  lemma FollowsRoot(s: System, vs: seq<Defines>)
    requires Follows(s, vs)
    ensures "root" in s.loggers
  {}

  /** One deed, through the objects of the library. */
  method Do(system: LogSystem, deed: Deed, ghost vs: seq<Defines>) returns (out: seq<Write>)
    requires system.Valid() && Allows(deed) && Follows(system.State(), vs)
    modifies system.config, system.config.datas.Values, system.manager.Repr
    ensures system.Valid()
    ensures fresh(system.config.datas.Values - old(system.config.datas.Values))
    ensures fresh(system.manager.Repr - old(system.manager.Repr))
    ensures Follows(system.State(), vs + Brought(system.parse, deed))
    ensures out == Written(system.parse, vs, deed)
  {
    hide LogSystem.Valid, LogSystem.State, Follows, Settings, Reported, Step, Configured, Deliver, Report, Buildable;
    system.ObjectsApart();
    out := [];
    ghost var s := system.State();
    assert vs + [] == vs;
    match deed
    case LoadDeed(root, notice) =>
      StepsFollow(s, vs, Settings(system.parse, ListedIn(root)));
      ReportsFollow(s, vs, Settings(system.parse, ListedIn(root)), notice);
      out := system.Load(root, notice);
    case SetDeed(v, notice) =>
      FollowsRoot(s, vs);
      OneReport(s, v, notice);
      FollowsStep(s, vs, v);
      ReportsFollow(s, vs, [v], notice);
      out := system.SetValue(v, notice);
    case LookupDeed(name, typeName, eq, conv, value) =>
      var _ := system.Lookup(name, typeName, eq, conv, value);
    case AddDeed(key, id) => system.AddOther(key, id);
    case DelDeed(key) => system.DelOther(key);
    case AskDeed(name) =>
      FollowsAsk(s, vs, name);
      var _ := system.GetLogger(name);
    case LogDeed(name, level, event) =>
      FollowsAsk(s, vs, name);
      DeliveryFollows(s, vs, name, level, event);
      out := system.Log(name, level, event);
  }

  lemma DeedSnoc(parse: Parser, deeds: seq<Deed>, k: nat)
    requires k < |deeds|
    ensures AllBrought(parse, deeds[..k + 1]) == AllBrought(parse, deeds[..k]) + Brought(parse, deeds[k])
    ensures Output(parse, deeds[..k + 1]) ==
            Output(parse, deeds[..k]) + Written(parse, AllBrought(parse, deeds[..k]), deeds[k])
  {
    hide Brought, Written;
    assert deeds[..k + 1][..k] == deeds[..k];
  }

  /** A program from its start: what it writes, and the objects it ends with. */
  method RunProgram(parse: Parser, deeds: seq<Deed>) returns (out: seq<Write>, system: LogSystem)
    requires forall d :: d in deeds ==> Allows(d)
    ensures out == Output(parse, deeds)
    ensures fresh(system) && system.Valid() && Follows(system.State(), AllBrought(parse, deeds))
  {
    hide LogSystem.Valid, LogSystem.State, LogSystem.Apart, Follows, Written, Brought, Allows;
    FollowsStart();
    system := new LogSystem(parse);
    out := [];
    assert deeds[..0] == [];
    for k := 0 to |deeds|
      invariant system.Valid() && system.parse == parse
      invariant fresh(system) && fresh(system.config) && fresh(system.config.datas.Values) && fresh(system.manager.Repr)
      invariant Follows(system.State(), AllBrought(parse, deeds[..k]))
      invariant out == Output(parse, deeds[..k])
    {
      var w := Do(system, deeds[k], AllBrought(parse, deeds[..k]));
      DeedSnoc(parse, deeds, k);
      out := out + w;
    }
    assert deeds[..|deeds|] == deeds;
  }

  /**
   From YAML to output, through every object of the library: whatever a program
   loads, sets, looks up, asks for and logs, in any order, all that its loggers
   write, in order, is what the values alone say.
   */
  method Program(parse: Parser, deeds: seq<Deed>) returns (out: seq<Write>)
    requires forall d :: d in deeds ==> Allows(d)
    ensures out == Output(parse, deeds)
  {
    hide *;
    var written, _ := RunProgram(parse, deeds);
    out := written;
  }

  /**
   The first event of a program that sets nothing: on any name, root writes the
   default line twice, for it is made with two console appenders.
   */
  lemma FirstOutput(parse: Parser, name: string, level: Level, event: LogEvent)
    ensures var line := Write(Stdout, DefaultLine("root", level, event) + "\n");
            Output(parse, [LogDeed(name, level, event)]) == if level == Unknow then [] else [line, line]
  {
    DefaultText("root", level, event);
    NothingHappened(name);
    NothingHappened("root");
    OneDeed(parse, LogDeed(name, level, event));
    hide RenderPattern, DefaultLine, LastEvent, Output, LastPattern, DefinedWrites, AtLeast;
    var line := Write(Stdout, DefaultLine("root", level, event) + "\n");
    assert Configured([], "root", level, event) == if level == Unknow then [] else [line, line];
    assert Configured([], name, level, event) == Configured([], "root", level, event);
  }

  lemma OneDeed(parse: Parser, deed: Deed)
    ensures Output(parse, [deed]) == Written(parse, [], deed)
  {
    hide Written;
    assert [deed][..0] == [];
  }

  lemma NothingHappened(name: string)
    ensures LastEvent([], name) == -1
  {}

  /** The deeds that matter to what is written later. */
  predicate Matters(deed: Deed) {
    deed.LoadDeed? || deed.SetDeed? || deed.LogDeed?
  }

  function Mattering(deeds: seq<Deed>): seq<Deed> {
    if deeds == [] then []
    else
      var d := deeds[|deeds| - 1];
      Mattering(deeds[..|deeds| - 1]) + if Matters(d) then [d] else []
  }

  /** Loggers asked for, other variables and other listeners change nothing of the output. */
  lemma {:induction false} BystandersSilent(parse: Parser, deeds: seq<Deed>)
    ensures AllBrought(parse, Mattering(deeds)) == AllBrought(parse, deeds)
    ensures Output(parse, Mattering(deeds)) == Output(parse, deeds)
  {
    if deeds != [] {
      var front, d := deeds[..|deeds| - 1], deeds[|deeds| - 1];
      BystandersSilent(parse, front);
      if Matters(d) {
        hide Brought, Written;
        assert (Mattering(front) + [d])[..|Mattering(front)|] == Mattering(front);
      } else {
        assert Mattering(deeds) == Mattering(front);
        assert Brought(parse, d) == [] && Written(parse, AllBrought(parse, front), d) == [];
        assert AllBrought(parse, front) + [] == AllBrought(parse, front);
        assert Output(parse, front) + [] == Output(parse, front);
      }
    }
  }

  /**
   The loggers of any system that a program leads to are dumped, and the dump is read
   and set in a new system: its loggers are the reloaded ones.
   */
  method DumpAndReload(system: LogSystem, ghost vs: seq<Defines>, notice: LogEvent) returns (copy: LogSystem)
    requires system.Valid() && Follows(system.State(), vs)
    ensures fresh(copy) && copy.Valid()
    ensures copy.State().loggers == ReloadedAll(system.State().loggers)
  {
    hide LogSystem.Valid, LogSystem.State, Follows, ReadDefines, DumpLoggers, ReloadedAll, Step, Report;
    var node := system.Dump();
    ghost var s := system.State();
    ghost var names :| Enumerates(names, s.loggers.Keys) && node == DumpLoggers(s.loggers, names);
    DumpFollows(s, vs, names);
    var ds := ReadDefines(node).value;
    DumpIsBuildable(node);
    copy := new LogSystem(system.parse);
    var _ := copy.SetValue(ds, notice);
  }

  lemma DumpIsBuildable(n: Node)
    requires ReadDefines(n).Some?
    ensures Buildable(ReadDefines(n).value)
  {
    ReaderIsBuildable(n, Size(n));
  }
}
