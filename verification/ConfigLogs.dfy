/** The "logs" variable as a variable of the configuration, and what drives the loggers. */
module ConfigLogs {
  import opened Common
  import opened ConfigPaths
  import opened ConfigStore
  import opened ConfigVars
  import opened LogCodec
  import opened LogDefines
  import opened LogHistory
  import opened LogItems
  import opened LogLevels
  import opened Yaml

  const LOGS_EQ := (a: Defines, b: Defines) => SameDefines(a, b)

  /** What YAML makes of a text; None is an exception. */
  type Parser = string -> Option<Node>

  /**
   fromString of the variable.  A scalar is passed on as its text, which is parsed
   once more; the text of any other node stands for the node.
   */
  function LogsFrom(parse: Parser, n: Node): Option<Defines> {
    if !n.Scalar? then ReadDefines(n)
    else match parse(n.text)
      case Some(m) => ReadDefines(m)
      case None => None
  }

  function LogsConv(parse: Parser): Node -> Option<Defines> {
    n => LogsFrom(parse, n)
  }

  // ---------------------------------------------------------------------
  // The variable drives the loggers

  /** The values that an operation passes to setValue. */
  function Passed<CB>(parse: Parser, op: Op<Defines, CB>): seq<Defines> {
    match op
    case SetOp(v) => [v]
    case FromOp(n) => (match LogsFrom(parse, n) case Some(v) => [v] case None => [])
    case _ => []
  }

  function AllPassed<CB>(parse: Parser, ops: seq<Op<Defines, CB>>): seq<Defines> {
    if ops == [] then [] else AllPassed(parse, ops[..|ops| - 1]) + Passed(parse, ops[|ops| - 1])
  }

  /**
   One operation: the variable moves as the run of changes does, and the calls it
   makes, as the listener of the key sees them, take the loggers there, too.
   */
  lemma OpDrives<CB>(parse: Parser, s: VarState<Defines, CB>, ls: LoggerMap, op: Op<Defines, CB>, key: Key)
    returns (calls: seq<Call<Defines, CB>>)
    requires key in s.callbacks && Stays(op, key)
    ensures var t, u := StepOp(s, LOGS_EQ, LogsConv(parse), op), Steps(System(s.value, ls), Passed(parse, op));
            && key in t.callbacks && t.value == u.defines
            && t.calls == s.calls + calls && Replay(ls, Seen(calls, key)) == u.loggers
  {
    hide OnChange, Notify, Replay, Steps;
    calls := [];
    var sys := System(s.value, ls);
    ReplaySnoc(ls, [], s.value, s.value);
    StepsNone(sys);
    assert s.calls + [] == s.calls;
    if Passed(parse, op) != [] {
      var v := Passed(parse, op)[0];
      StepsSnoc(sys, [], v);
      assert Passed(parse, op) == [] + [v];
      if !SameDefines(v, s.value) {
        calls := Notify(s.callbacks, s.value, v);
        SeenNotify(s.callbacks, s.value, v, key);
        assert [] + [(s.value, v)] == [(s.value, v)];
        ReplaySnoc(ls, [], s.value, v);
      }
    }
  }

  lemma StepsNone(s: System)
    ensures Steps(s, []) == s
  {}

  /**
   Every run of operations that leaves the listener registered: the variable ends
   where the run of the values passed to setValue ends, and replaying the changes
   that the listener was told about takes the loggers to the end of that run.
   */
  lemma {:induction false} OpsDrive<CB>(
    parse: Parser, s: VarState<Defines, CB>, ls: LoggerMap, ops: seq<Op<Defines, CB>>, key: Key)
    returns (calls: seq<Call<Defines, CB>>)
    requires key in s.callbacks && forall op :: op in ops ==> Stays(op, key)
    ensures var t, u := RunOps(s, LOGS_EQ, LogsConv(parse), ops), Steps(System(s.value, ls), AllPassed(parse, ops));
            && key in t.callbacks && t.value == u.defines
            && t.calls == s.calls + calls && Replay(ls, Seen(calls, key)) == u.loggers
  {
    calls := [];
    if ops == [] {
      assert s.calls + [] == s.calls;
    } else {
      var front, op := ops[..|ops| - 1], ops[|ops| - 1];
      calls := OpsDrive(parse, s, ls, front, key);
      var m := RunOps(s, LOGS_EQ, LogsConv(parse), front);
      var more := OpDrives(parse, m, Replay(ls, Seen(calls, key)), op, key);
      hide StepOp, Passed;
      StepsAppend(System(s.value, ls), AllPassed(parse, front), Passed(parse, op));
      SeenConcat(calls, more, key);
      ReplayAppend(ls, Seen(calls, key), Seen(more, key));
      Associates(s.calls, calls, more);
      calls := calls + more;
    }
  }

  // ---------------------------------------------------------------------
  // Loading trees

  /** The definitions that one listed node gives the variable. */
  function Given(parse: Parser, e: (string, Node)): seq<Defines> {
    if Sets(e, "logs", LogsConv(parse)) then [LogsFrom(parse, e.1).value] else []
  }

  /** The sets of definitions that a list of nodes gives the variable, in order. */
  function Settings(parse: Parser, entries: seq<(string, Node)>): seq<Defines> {
    if entries == [] then [] else Settings(parse, entries[..|entries| - 1]) + Given(parse, entries[|entries| - 1])
  }

  lemma {:induction false} SettingsArePassed<CB>(parse: Parser, entries: seq<(string, Node)>)
    ensures AllPassed(parse, OpsOf<Defines, CB>("logs", entries)) == Settings(parse, entries)
  {
    hide Passed, Given;
    if entries != [] {
      var front, e := entries[..|entries| - 1], entries[|entries| - 1];
      SettingsArePassed<CB>(parse, front);
      PassedIsGiven<CB>(parse, e);
      var ops: seq<Op<Defines, CB>> := OpsOf("logs", front);
      if e.0 == "logs" {
        AllPassedSnoc(parse, ops, FromOp(e.1));
        assert OpsOf<Defines, CB>("logs", entries) == ops + [FromOp(e.1)];
      } else {
        assert OpsOf<Defines, CB>("logs", entries) == ops;
        assert Settings(parse, front) + [] == Settings(parse, front);
      }
    }
  }

  lemma PassedIsGiven<CB>(parse: Parser, e: (string, Node))
    ensures Given(parse, e) == if e.0 == "logs" then Passed<CB>(parse, FromOp(e.1)) else []
  {
    hide LogsFrom;
    assert "logs" != "";
  }

  lemma AllPassedSnoc<CB>(parse: Parser, ops: seq<Op<Defines, CB>>, op: Op<Defines, CB>)
    ensures AllPassed(parse, ops + [op]) == AllPassed(parse, ops) + Passed(parse, op)
  {
    assert (ops + [op])[..|ops|] == ops;
  }

  function ListedIn(root: Node): seq<(string, Node)> {
    Flatten("", root)
  }

  /** The variable after loading some trees, one after another. */
  ghost function LoadAll<CB>(parse: Parser, trees: seq<Node>, s: VarState<Defines, CB>): VarState<Defines, CB> {
    if trees == [] then s
    else Load("logs", LOGS_EQ, LogsConv(parse), ListedIn(trees[|trees| - 1]), LoadAll(parse, trees[..|trees| - 1], s))
  }

  /**
   What one tree brings that has just the key of the variable: the definitions in its
   value, or, if that is a scalar, those in what its text stands for.
   */
  lemma LoadBrings(parse: Parser, n: Node)
    requires !n.Map?
    ensures Settings(parse, ListedIn(Map([KeyValue("logs", n)]))) ==
            if !n.Scalar? then (if ReadDefines(n).Some? then [ReadDefines(n).value] else [])
            else if parse(n.text).None? || ReadDefines(parse(n.text).value).None? then []
            else [ReadDefines(parse(n.text).value).value]
  {
    var root := Map([KeyValue("logs", n)]);
    DroppedListing(n);
    hide ListedIn, ReadDefines;
    var e, f := ("", root), ("logs", n);
    var entries := [e, f];
    assert entries[..1] == [e] && entries[..1][..0] == [];
    assert Given(parse, e) == [];
    assert Settings(parse, entries) == Settings(parse, entries[..1]) + Given(parse, f);
    assert Settings(parse, entries[..1]) == Settings(parse, []) + Given(parse, e);
  }

  /** All sets of definitions that some trees give the variable, in order. */
  function AllSettings(parse: Parser, trees: seq<Node>): seq<Defines> {
    if trees == [] then [] else AllSettings(parse, trees[..|trees| - 1]) + Settings(parse, ListedIn(trees[|trees| - 1]))
  }

  /** One load, as the variable and its listener see it. */
  lemma LoadDrives<CB>(parse: Parser, entries: seq<(string, Node)>, s: VarState<Defines, CB>, ls: LoggerMap, key: Key)
    returns (calls: seq<Call<Defines, CB>>)
    requires key in s.callbacks
    ensures var t := Load("logs", LOGS_EQ, LogsConv(parse), entries, s);
            var u := Steps(System(s.value, ls), Settings(parse, entries));
            && key in t.callbacks && t.value == u.defines
            && t.calls == s.calls + calls && Replay(ls, Seen(calls, key)) == u.loggers
  {
    hide *;
    LoadIsOps("logs", LOGS_EQ, LogsConv(parse), entries, s);
    OpsOfStay<Defines, CB>("logs", entries, key);
    SettingsArePassed<CB>(parse, entries);
    calls := OpsDrive(parse, s, ls, OpsOf("logs", entries), key);
  }

  lemma {:induction false} LoadsDrive<CB>(
    parse: Parser, trees: seq<Node>, s: VarState<Defines, CB>, ls: LoggerMap, key: Key)
    returns (calls: seq<Call<Defines, CB>>)
    requires key in s.callbacks
    ensures var t, u := LoadAll(parse, trees, s), Steps(System(s.value, ls), AllSettings(parse, trees));
            && key in t.callbacks && t.value == u.defines
            && t.calls == s.calls + calls && Replay(ls, Seen(calls, key)) == u.loggers
  {
    hide Load, Settings, Step, OnChange;
    calls := [];
    if trees == [] {
      assert s.calls + [] == s.calls;
    } else {
      var front, entries := trees[..|trees| - 1], ListedIn(trees[|trees| - 1]);
      calls := LoadsDrive(parse, front, s, ls, key);
      var more := LoadDrives(parse, entries, LoadAll(parse, front, s), Replay(ls, Seen(calls, key)), key);
      StepsAppend(System(s.value, ls), AllSettings(parse, front), Settings(parse, entries));
      SeenConcat(calls, more, key);
      ReplayAppend(ls, Seen(calls, key), Seen(more, key));
      Associates(s.calls, calls, more);
      calls := calls + more;
    }
  }

  /**
   From trees to output.  A variable that starts empty, with the listener
   registered under a key, is given any trees to load.  The changes that the
   listener is told about take new loggers to the state that the run of all
   definitions in the trees has, and an event then writes what those say.
   */
  lemma TreesDecideOutput<CB>(
    parse: Parser, trees: seq<Node>, callbacks: map<Key, CB>, key: Key, name: string, level: Level, event: LogEvent)
    requires key in callbacks
    ensures var t, vs := LoadAll(parse, trees, VarState(INITIAL.defines, callbacks, [])), AllSettings(parse, trees);
            var ls := Replay(INITIAL.loggers, Seen(t.calls, key));
            && t.value == Run(vs).defines && ls == Run(vs).loggers && "root" in ls
            && Deliver(ls[name := StateOf(ls, name)], name, level, event) == Configured(vs, name, level, event)
  {
    hide *;
    var s: VarState<Defines, CB> := VarState(INITIAL.defines, callbacks, []);
    var calls := LoadsDrive(parse, trees, s, INITIAL.loggers, key);
    assert s.calls + calls == calls;
    assert INITIAL == System(INITIAL.defines, INITIAL.loggers);
    RunIsSteps(AllSettings(parse, trees));
    DeliveryIsConfigured(AllSettings(parse, trees), name, level, event);
  }

  // ---------------------------------------------------------------------
  // What a load cannot see

  /** A load keeps the callbacks, and only adds to the calls. */
  lemma {:induction false} LoadGrows<CB>(parse: Parser, entries: seq<(string, Node)>, s: VarState<Defines, CB>)
    ensures var t := Load("logs", LOGS_EQ, LogsConv(parse), entries, s);
            t.callbacks == s.callbacks && s.calls <= t.calls
  {
    hide Notify, LogsFrom;
    if entries != [] {
      LoadGrows(parse, entries[..|entries| - 1], s);
    }
  }

  lemma {:induction false} LoadUnseen<CB>(parse: Parser, entries: seq<(string, Node)>, s: VarState<Defines, CB>)
    requires forall v :: v in Settings(parse, entries) ==> AllAlike(v, s.value)
    ensures Load("logs", LOGS_EQ, LogsConv(parse), entries, s) == s
  {
    SameIsAlike();
    hide Notify, LogsFrom, SameDefines, AllAlike;
    if entries != [] {
      var front, e := entries[..|entries| - 1], entries[|entries| - 1];
      assert Settings(parse, entries) == Settings(parse, front) + Given(parse, e);
      assert Given(parse, e) != [] ==> Given(parse, e)[0] in Settings(parse, entries);
      LoadUnseen(parse, front, s);
    }
  }

  lemma {:induction false} LoadSeen<CB>(
    parse: Parser, entries: seq<(string, Node)>, s: VarState<Defines, CB>, v: Defines)
    requires s.callbacks != map[] && v in Settings(parse, entries) && !AllAlike(v, s.value)
    ensures |Load("logs", LOGS_EQ, LogsConv(parse), entries, s).calls| > |s.calls|
  {
    var front, e := entries[..|entries| - 1], entries[|entries| - 1];
    var m := Load("logs", LOGS_EQ, LogsConv(parse), front, s);
    LoadGrows(parse, front, s);
    LoadGrows(parse, entries, s);
    SameIsAlike();
    hide Notify, LogsFrom, SameDefines, AllAlike;
    if w :| w in Settings(parse, front) && !AllAlike(w, s.value) {
      LoadSeen(parse, front, s, w);
    } else {
      LoadUnseen(parse, front, s);
      assert v in Given(parse, e);
      var key :| key in s.callbacks;
      SeenNotify(s.callbacks, s.value, v, key);
    }
  }

  /**
   A load leaves the variable as it is and calls no listener if every set of
   definitions it brings equals the current one by operator==, which does not see
   a change of appenders; and, where a listener is registered, only if.
   */
  lemma HiddenEditDoesNotLoad<CB>(parse: Parser, entries: seq<(string, Node)>, s: VarState<Defines, CB>)
    ensures (forall v :: v in Settings(parse, entries) ==> AllAlike(v, s.value)) ==>
              Load("logs", LOGS_EQ, LogsConv(parse), entries, s) == s
    ensures s.callbacks != map[] && Load("logs", LOGS_EQ, LogsConv(parse), entries, s) == s ==>
              forall v :: v in Settings(parse, entries) ==> AllAlike(v, s.value)
  {
    hide Load, AllAlike, Settings;
    if v :| v in Settings(parse, entries) && !AllAlike(v, s.value) {
      if s.callbacks != map[] {
        LoadSeen(parse, entries, s, v);
      }
    } else {
      LoadUnseen(parse, entries, s);
    }
  }

  /**
   What any load leaves in the variable, where entry i is the last that converts:
   a value that operator== takes for that of the entry, and this very value exactly
   unless the one before it was taken for equal without being so.
   */
  lemma OtherEditsLoad<CB>(parse: Parser, entries: seq<(string, Node)>, s: VarState<Defines, CB>, i: nat)
    requires i < |entries| && Sets(entries[i], "logs", LogsConv(parse))
    requires forall j :: i < j < |entries| ==> !Sets(entries[j], "logs", LogsConv(parse))
    ensures var v, t := LogsFrom(parse, entries[i].1).value, Load("logs", LOGS_EQ, LogsConv(parse), entries, s);
            var before := Load("logs", LOGS_EQ, LogsConv(parse), entries[..i], s);
            && AllAlike(t.value, v)
            && (t.value == v <==> (AllAlike(v, before.value) ==> v == before.value))
  {
    LastWriterExactly("logs", LOGS_EQ, LogsConv(parse), entries, s, i);
    LoadSkips("logs", LOGS_EQ, LogsConv(parse), entries, s, i + 1);
    assert entries[..i + 1][..i] == entries[..i];
    SameIsAlike();
    AlikeItself();
    hide LogsFrom, Notify, AllAlike;
  }

  lemma AlikeItself()
    ensures forall v: Defines :: AllAlike(v, v)
  {}

  /** The listener can build whatever a load brings. */
  lemma {:induction false} SettingsBuildable(parse: Parser, entries: seq<(string, Node)>)
    ensures forall v :: v in Settings(parse, entries) ==> Buildable(v)
  {
    hide Buildable, LogsFrom;
    if entries != [] {
      var e := entries[|entries| - 1];
      SettingsBuildable(parse, entries[..|entries| - 1]);
      if Given(parse, e) != [] {
        FromIsBuildable(parse, e.1);
      }
    }
  }

  lemma FromIsBuildable(parse: Parser, n: Node)
    requires LogsFrom(parse, n).Some?
    ensures Buildable(LogsFrom(parse, n).value)
  {
    hide Buildable, ReadDefinesUpTo;
    var m := if n.Scalar? then parse(n.text).value else n;
    ReaderIsBuildable(m, Size(m));
  }

  /** What the reader produces never makes the listener dereference a null pointer. */
  lemma {:induction false} ReaderIsBuildable(n: Node, k: nat)
    requires k <= Size(n) && ReadDefinesUpTo(n, k).Some?
    ensures Buildable(ReadDefinesUpTo(n, k).value)
  {
    hide ReadDefine, Child;
    if k > 0 {
      ReaderIsBuildable(n, k - 1);
      ReaderIsNormal(Child(n, k - 1));
    }
  }

  const OLD_DEFINES: Defines := map["a" := LogDefine("a", Info, "", [])]
  const NEW_DEFINES: Defines := map["a" := LogDefine("a", Info, "", [CONSOLE])]

  /** A tree that gives the logger "a" its first appender, and is dropped: the listener is not called. */
  lemma DroppedEditExample<CB>(parse: Parser, callbacks: map<Key, CB>)
    ensures var s: VarState<Defines, CB> := VarState(OLD_DEFINES, callbacks, []);
            var root := Map([KeyValue("logs", WriteDefines(NEW_DEFINES, ["a"]))]);
            Settings(parse, ListedIn(root)) == [NEW_DEFINES] && NEW_DEFINES != OLD_DEFINES
            && Load("logs", LOGS_EQ, LogsConv(parse), ListedIn(root), s) == s
  {
    var s: VarState<Defines, CB> := VarState(OLD_DEFINES, callbacks, []);
    var n := WriteDefines(NEW_DEFINES, ["a"]);
    DroppedListing(n);
    DroppedReading();
    DroppedIsHidden();
    hide *;
    LoadBrings(parse, n);
    HiddenEditDoesNotLoad(parse, ListedIn(Map([KeyValue("logs", n)])), s);
  }

  lemma DroppedIsHidden()
    ensures NEW_DEFINES != OLD_DEFINES && AllAlike(NEW_DEFINES, OLD_DEFINES)
  {
    assert "a" in NEW_DEFINES && "a" in OLD_DEFINES && NEW_DEFINES["a"].appenders != OLD_DEFINES["a"].appenders;
  }

  lemma DroppedListing(n: Node)
    requires !n.Map?
    ensures var root := Map([KeyValue("logs", n)]); ListedIn(root) == [("", root), ("logs", n)]
  {
    var root := Map([KeyValue("logs", n)]);
    assert Flatten(Join("", "logs"), n) == [("logs", n)];
    assert FlattenEntries("", root.entries) == [("logs", n)] + FlattenEntries("", []);
  }

  lemma DroppedReading()
    ensures ReadDefines(WriteDefines(NEW_DEFINES, ["a"])) == Some(NEW_DEFINES)
  {
    DroppedNormal();
    hide ReadDefines, WriteDefines, NormalDefine;
    assert NEW_DEFINES.Keys == {"a"} && ["a"][0] == "a";
    ReadWrittenDefines(NEW_DEFINES, ["a"]);
    assert NormalDefines(NEW_DEFINES) == NEW_DEFINES;
  }

  lemma DroppedNormal()
    ensures "a" in NEW_DEFINES && NormalDefine(NEW_DEFINES["a"]) == NEW_DEFINES["a"]
  {
    NormalAllExactly([CONSOLE]);
  }
}
