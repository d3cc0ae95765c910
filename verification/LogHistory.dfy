/** Runs of changes to the "logs" variable. */
module LogHistory {
  import opened Common
  import opened DefaultPattern
  import opened LogDefines
  import opened LogItems
  import opened LogLevels

  /** The value of the variable, and the loggers. */
  datatype System = System(defines: Defines, loggers: LoggerMap)

  const INITIAL := System(map[], map["root" := INITIAL_ROOT])

  /** setValue: nothing happens if the new value equals the old one by operator==. */
  function Step(s: System, v: Defines): System {
    if SameDefines(v, s.defines) then s else System(v, OnChange(s.loggers, s.defines, v))
  }

  function Run(vs: seq<Defines>): System {
    if vs == [] then INITIAL else Step(Run(vs[..|vs| - 1]), vs[|vs| - 1])
  }

  lemma RunSnoc(vs: seq<Defines>, v: Defines)
    ensures Run([]) == INITIAL && Run(vs + [v]) == Step(Run(vs), v)
  {
    assert (vs + [v])[..|vs|] == vs;
  }

  /** Further changes, from any state. */
  function Steps(s: System, vs: seq<Defines>): System {
    if vs == [] then s else Step(Steps(s, vs[..|vs| - 1]), vs[|vs| - 1])
  }

  lemma StepsSnoc(s: System, vs: seq<Defines>, v: Defines)
    ensures Steps(s, vs + [v]) == Step(Steps(s, vs), v)
  {
    assert (vs + [v])[..|vs|] == vs;
  }

  lemma {:induction false} StepsAppend(s: System, vs: seq<Defines>, ws: seq<Defines>)
    ensures Steps(s, vs + ws) == Steps(Steps(s, vs), ws)
  {
    hide Step;
    if ws == [] {
      assert vs + ws == vs;
    } else {
      var front := ws[..|ws| - 1];
      StepsAppend(s, vs, front);
      assert vs + ws == vs + front + [ws[|ws| - 1]];
      StepsSnoc(s, vs + front, ws[|ws| - 1]);
    }
  }

  lemma {:induction false} RunIsSteps(vs: seq<Defines>)
    ensures Run(vs) == Steps(INITIAL, vs)
  {
    if vs != [] {
      RunIsSteps(vs[..|vs| - 1]);
    }
  }

  /** What the listener makes of the changes it is told about, one after another. */
  function Replay(ls: LoggerMap, changes: seq<(Defines, Defines)>): LoggerMap {
    if changes == [] then ls
    else OnChange(Replay(ls, changes[..|changes| - 1]), changes[|changes| - 1].0, changes[|changes| - 1].1)
  }

  lemma ReplaySnoc(ls: LoggerMap, changes: seq<(Defines, Defines)>, oldValue: Defines, newValue: Defines)
    ensures Replay(ls, []) == ls
    ensures Replay(ls, changes + [(oldValue, newValue)]) == OnChange(Replay(ls, changes), oldValue, newValue)
  {
    assert (changes + [(oldValue, newValue)])[..|changes|] == changes;
  }

  lemma ReplayNone(ls: LoggerMap)
    ensures Replay(ls, []) == ls
  {}

  lemma {:induction false} ReplayAppend(ls: LoggerMap, a: seq<(Defines, Defines)>, b: seq<(Defines, Defines)>)
    ensures Replay(ls, a + b) == Replay(Replay(ls, a), b)
  {
    hide OnChange;
    if b == [] {
      assert a + b == a;
      ReplayNone(Replay(ls, a));
    } else {
      var n := |b| - 1;
      ReplayAppend(ls, a, b[..n]);
      hide Replay;
      ReplaySnoc(Replay(ls, a), b[..n], b[n].0, b[n].1);
      ReplaySnoc(ls, a + b[..n], b[n].0, b[n].1);
      assert b == b[..n] + [(b[n].0, b[n].1)] && a + b == a + b[..n] + [(b[n].0, b[n].1)];
    }
  }

  // ---------------------------------------------------------------------
  // What happens to a name in a run

  /** The value before change k of a run. */
  function Before(vs: seq<Defines>, k: nat): Defines
    requires k <= |vs|
  {
    if k == 0 then map[] else vs[k - 1]
  }

  /** Value k has a definition of the name that the value before lacks, or has with another level or formatter. */
  predicate Changed(vs: seq<Defines>, k: nat, name: string)
    requires k < |vs|
  {
    && name in vs[k]
    && (name in Before(vs, k) ==> !Alike(vs[k][name], Before(vs, k)[name]))
  }

  /** Value k lacks the definition of the name that the value before has. */
  predicate Dropped(vs: seq<Defines>, k: nat, name: string)
    requires k < |vs|
  {
    name in Before(vs, k) && name !in vs[k]
  }

  predicate Reformatted(vs: seq<Defines>, k: nat, name: string)
    requires k < |vs|
  {
    Changed(vs, k, name) && Effective(vs[k][name].formatter)
  }

  /** The index of the last value that changed or dropped the definition of a name, or -1. */
  function LastEvent(vs: seq<Defines>, name: string): (k: int)
    ensures -1 <= k < |vs|
    ensures k >= 0 ==> Changed(vs, k, name) || Dropped(vs, k, name)
    ensures forall j :: k < j < |vs| ==> !Changed(vs, j, name) && !Dropped(vs, j, name)
  {
    if vs == [] then -1
    else
      var n := |vs| - 1;
      PrefixAt(vs, n, name);
      if Changed(vs, n, name) || Dropped(vs, n, name) then n else LastEvent(vs[..n], name)
  }

  /** The index of the last value that changed the definition of a name to one with an effective formatter, or -1. */
  function LastFormatter(vs: seq<Defines>, name: string): (p: int)
    ensures -1 <= p < |vs|
    ensures p >= 0 ==> Reformatted(vs, p, name)
    ensures forall j :: p < j < |vs| ==> !Reformatted(vs, j, name)
  {
    if vs == [] then -1
    else
      var n := |vs| - 1;
      PrefixAt(vs, n, name);
      if Reformatted(vs, n, name) then n else LastFormatter(vs[..n], name)
  }

  lemma PrefixAt(vs: seq<Defines>, n: nat, name: string)
    requires n <= |vs|
    ensures forall j :: 0 <= j < n ==>
              && (Changed(vs[..n], j, name) <==> Changed(vs, j, name))
              && (Dropped(vs[..n], j, name) <==> Dropped(vs, j, name))
              && (Reformatted(vs[..n], j, name) <==> Reformatted(vs, j, name))
  {
    hide IsError;
  }

  /** The definition that took effect last is the latest one, as far as operator== sees. */
  lemma {:induction false} LastDefinition(vs: seq<Defines>, name: string)
    requires vs != []
    ensures var k, latest := LastEvent(vs, name), vs[|vs| - 1];
            && (name in latest <==> k >= 0 && name in vs[k])
            && (name in latest ==> Alike(latest[name], vs[k][name]))
  {
    var n := |vs| - 1;
    if !Changed(vs, n, name) && !Dropped(vs, n, name) && n > 0 {
      LastDefinition(vs[..n], name);
    }
  }

  // ---------------------------------------------------------------------
  // What a run has made of each logger

  /** The loggers after a change, name by name. */
  lemma OnChangeAt(ls: LoggerMap, oldValue: Defines, newValue: Defines, name: string)
    ensures var after := OnChange(ls, oldValue, newValue);
            && (name in Touched(oldValue, newValue) ==>
                  name in after && after[name] == ApplyDefine(newValue[name], StateOf(ls, name)))
            && (name in Removed(oldValue, newValue) ==> name in after && after[name] == Retire(StateOf(ls, name)))
            && (name !in Touched(oldValue, newValue) && name !in Removed(oldValue, newValue) ==>
                  (name in after <==> name in ls) && (name in ls ==> after[name] == ls[name]))
  {}

  /** The variable always holds a value that operator== takes for the latest one. */
  lemma {:induction false} ValueIsLatest(vs: seq<Defines>)
    ensures AllAlike(Run(vs).defines, Before(vs, |vs|))
  {
    SameIsAlike();
    if vs != [] {
      ValueIsLatest(vs[..|vs| - 1]);
    }
  }

  /** What value n does to one logger: it depends on the value before, whether or not that was stored. */
  lemma StepAt(vs: seq<Defines>, n: nat, name: string)
    requires n < |vs|
    ensures var before, after := Run(vs[..n]).loggers, Step(Run(vs[..n]), vs[n]).loggers;
            && (Changed(vs, n, name) ==>
                  name in after && after[name] == ApplyDefine(vs[n][name], StateOf(before, name)))
            && (Dropped(vs, n, name) ==> name in after && after[name] == Retire(StateOf(before, name)))
            && (!Changed(vs, n, name) && !Dropped(vs, n, name) ==>
                  (name in after <==> name in before) && (name in before ==> after[name] == before[name]))
  {
    var s := Run(vs[..n]);
    ValueIsLatest(vs[..n]);
    assert Before(vs[..n], n) == Before(vs, n);
    OnChangeAt(s.loggers, s.defines, vs[n], name);
    hide OnChange, Run, ApplyDefine, Retire;
  }

  /** The pattern of a logger after a run: the formatter of the last change that had an effective one. */
  function LastPattern(vs: seq<Defines>, name: string): string {
    var p := LastFormatter(vs, name);
    if p == -1 then DEFAULT_PATTERN else vs[p][name].formatter
  }

  /**
   Incremental reconfiguration, for every run of changes from a new manager.  Let
   value k be the last that changed or dropped the definition of a name.  If it
   has one, the logger has the level and the appenders that this definition would
   build alone; if not, it has level 0 and no appenders; and without such a value
   the logger is as it was made.  The pattern is that of the last change with an
   effective formatter.
   */
  lemma {:induction false} Incremental(vs: seq<Defines>, name: string)
    ensures var ls, k := Run(vs).loggers, LastEvent(vs, name);
            && (k == -1 ==> (name in ls <==> name == "root") && (name in ls ==> ls[name] == INITIAL_ROOT))
            && (k >= 0 ==> name in ls)
            && (k >= 0 && name in vs[k] ==> Matches(ls[name], vs[k][name]))
            && (k >= 0 && name !in vs[k] ==> ls[name].level == Unknow && ls[name].appenders == [])
            && StateOf(ls, name).pattern == LastPattern(vs, name)
  {
    if vs == [] {
      InitialPattern(name);
    } else {
      var n := |vs| - 1;
      Incremental(vs[..n], name);
      StepAt(vs, n, name);
      LastStep(vs, name);
      RunLast(vs);
      hide *;
      var before := StateOf(Run(vs[..n]).loggers, name);
      StateIs(Run(vs[..n]).loggers, name);
      StateIs(Run(vs).loggers, name);
      if Changed(vs, n, name) {
        AppliedIs(vs[n][name], before);
        ReformattedIs(vs, n, name);
      } else if Dropped(vs, n, name) {
        RetiredIs(before);
        ReformattedIs(vs, n, name);
      } else {
        ReformattedIs(vs, n, name);
      }
    }
  }

  lemma RunLast(vs: seq<Defines>)
    requires vs != []
    ensures Run(vs) == Step(Run(vs[..|vs| - 1]), vs[|vs| - 1])
  {}

  lemma StateIs(ls: LoggerMap, name: string)
    ensures name in ls ==> StateOf(ls, name) == ls[name]
    ensures name !in ls ==> StateOf(ls, name) == NewLogger(name)
  {}

  lemma ReformattedIs(vs: seq<Defines>, k: nat, name: string)
    requires k < |vs|
    ensures Changed(vs, k, name) ==> name in vs[k] && (Reformatted(vs, k, name) <==> Effective(vs[k][name].formatter))
    ensures !Changed(vs, k, name) ==> !Reformatted(vs, k, name)
    ensures !(Changed(vs, k, name) && Dropped(vs, k, name))
  {
    hide Effective;
  }

  lemma RetiredIs(s: LoggerState)
    ensures Retire(s).level == Unknow && Retire(s).appenders == [] && Retire(s).pattern == s.pattern
  {}

  lemma AppliedIs(d: LogDefine, s: LoggerState)
    ensures Matches(ApplyDefine(d, s), d)
    ensures ApplyDefine(d, s).pattern == if Effective(d.formatter) then d.formatter else s.pattern
  {
    hide Effective, BuiltAll;
  }

  /** How the last event and the last pattern move with one more value. */
  lemma LastStep(vs: seq<Defines>, name: string)
    requires vs != []
    ensures var n := |vs| - 1;
            var k, before := LastEvent(vs, name), LastEvent(vs[..n], name);
            && (Changed(vs, n, name) ==> k == n && name in vs[k])
            && (Dropped(vs, n, name) ==> k == n && name !in vs[k])
            && (!Changed(vs, n, name) && !Dropped(vs, n, name) ==> k == before && (k >= 0 ==> vs[k] == vs[..n][k]))
            && LastPattern(vs, name) ==
               if Reformatted(vs, n, name) then vs[n][name].formatter else LastPattern(vs[..n], name)
  {
    hide Effective;
  }

  lemma InitialPattern(name: string)
    ensures StateOf(INITIAL.loggers, name).pattern == DEFAULT_PATTERN
  {}

  /**
   After any run, a logger is altogether what the definition that took effect last
   would build alone exactly if that definition has an effective formatter, or the
   last one that had an effective formatter gave the default pattern, or none had.
   */
  lemma FromScratchExactly(vs: seq<Defines>, name: string)
    requires vs != [] && name in vs[|vs| - 1]
    ensures var ls, k, p := Run(vs).loggers, LastEvent(vs, name), LastFormatter(vs, name);
            && k >= 0 && name in vs[k] && name in ls
            && (ls[name] == FromScratch(vs[k][name]) <==>
                  Effective(vs[k][name].formatter) || p == -1 || vs[p][name].formatter == DEFAULT_PATTERN)
  {
    Incremental(vs, name);
    LastDefinition(vs, name);
    EventBeforeFormatter(vs, name);
    hide Run, LastEvent, LastFormatter, IsError, BuiltAll;
  }

  lemma EventBeforeFormatter(vs: seq<Defines>, name: string)
    ensures var k := LastEvent(vs, name);
            k >= 0 && name in vs[k] && Effective(vs[k][name].formatter) ==> LastFormatter(vs, name) == k
  {
    var k, p := LastEvent(vs, name), LastFormatter(vs, name);
    hide LastEvent, LastFormatter, IsError;
    if k >= 0 && name in vs[k] && Effective(vs[k][name].formatter) {
      assert Reformatted(vs, k, name);
      assert p >= 0 ==> Changed(vs, p, name);
    }
  }

  // ---------------------------------------------------------------------
  // Where incremental and from-scratch part

  /** Every current definition has the logger that it alone would build. */
  predicate InSync(ls: LoggerMap, ds: Defines) {
    forall n :: n in ds ==> n in ls && Matches(ls[n], ds[n])
  }

  /** A definition that changes nothing but its appenders, which operator== does not see. */
  predicate HiddenEdit(oldValue: Defines, newValue: Defines, name: string) {
    && name in oldValue && name in newValue
    && Alike(newValue[name], oldValue[name])
    && BuiltAll(newValue[name].appenders) != BuiltAll(oldValue[name].appenders)
  }

  lemma MatchesIs(s: LoggerState, d: LogDefine)
    ensures Matches(s, d) <==> s.level == d.level && s.appenders == BuiltAll(d.appenders)
  {}

  lemma InSyncAt(s: System, v: Defines, name: string)
    requires InSync(s.loggers, s.defines) && name in v
    ensures var ls := Step(s, v).loggers;
            (name in ls && Matches(ls[name], v[name])) <==> !HiddenEdit(s.defines, v, name)
  {
    OnChangeAt(s.loggers, s.defines, v, name);
    hide OnChange, IsError, BuiltAll, Matches;
    if name in s.defines {
      MatchesIs(s.loggers[name], s.defines[name]);
      MatchesIs(s.loggers[name], v[name]);
    }
    MatchesIs(ApplyDefine(v[name], StateOf(s.loggers, name)), v[name]);
  }

  /**
   A change keeps the loggers in step with the new value exactly when no
   definition of the new value differs from the old one in its appenders alone.
   */
  lemma InSyncExactly(s: System, v: Defines)
    requires InSync(s.loggers, s.defines)
    ensures InSync(Step(s, v).loggers, v) <==> forall n :: n in v ==> !HiddenEdit(s.defines, v, n)
  {
    forall n | n in v
      ensures (n in Step(s, v).loggers && Matches(Step(s, v).loggers[n], v[n])) <==> !HiddenEdit(s.defines, v, n)
    {
      InSyncAt(s, v, n);
    }
  }

  /** Two definitions that operator== takes for equal are equal. */
  predicate Visible(oldValue: Defines, newValue: Defines) {
    forall n :: n in oldValue && n in newValue && Alike(newValue[n], oldValue[n]) ==>
      newValue[n] == oldValue[n]
  }

  /** No value of the run changes the appenders of a definition and nothing else of it. */
  predicate NoHiddenEdits(vs: seq<Defines>) {
    |vs| < 2 || (Visible(vs[|vs| - 2], vs[|vs| - 1]) && NoHiddenEdits(vs[..|vs| - 1]))
  }

  /** Without such changes, the variable and the loggers follow every value of the run. */
  lemma {:induction false} RunInSync(vs: seq<Defines>)
    requires NoHiddenEdits(vs)
    ensures vs != [] ==> Run(vs).defines == vs[|vs| - 1]
    ensures InSync(Run(vs).loggers, Run(vs).defines)
  {
    if vs != [] {
      var before, v := vs[..|vs| - 1], vs[|vs| - 1];
      var s := Run(before);
      RunInSync(before);
      assert before != [] ==> before[|before| - 1] == vs[|vs| - 2];
      assert Visible(s.defines, v);
      InSyncExactly(s, v);
      SameVisible(s.defines, v);
      assert Run(vs) == Step(s, v);
      hide OnChange, Matches, InSync, Visible, SameDefines, Run;
    }
  }

  /** Where every edit is visible, operator== takes no other value for the old one, and none is hidden. */
  lemma SameVisible(oldValue: Defines, newValue: Defines)
    requires Visible(oldValue, newValue)
    ensures SameDefines(newValue, oldValue) ==> newValue == oldValue
    ensures forall n :: n in newValue ==> !HiddenEdit(oldValue, newValue, n)
  {
    SameIsAlike();
    hide BuiltAll, SameDefine;
  }

  /**
   After any run, a logger has the level and appenders of the latest definition of
   its name exactly when the definition that took effect last builds the same
   appenders.
   */
  lemma RunMatchesExactly(vs: seq<Defines>, name: string)
    requires vs != [] && name in vs[|vs| - 1]
    ensures var ls, d, k := Run(vs).loggers, vs[|vs| - 1][name], LastEvent(vs, name);
            && k >= 0 && name in vs[k] && name in ls
            && (Matches(ls[name], d) <==> BuiltAll(vs[k][name].appenders) == BuiltAll(d.appenders))
  {
    Incremental(vs, name);
    LastDefinition(vs, name);
    var ls, d, k := Run(vs).loggers, vs[|vs| - 1][name], LastEvent(vs, name);
    hide Run, LastEvent, LastPattern, BuiltAll, Matches;
    MatchesIs(ls[name], d);
    MatchesIs(ls[name], vs[k][name]);
  }

  /**
   Reconfiguring step by step and building anew agree, for a name in the latest
   value, exactly if both of its conditions hold: the definition that took effect
   last builds the same appenders, and no earlier formatter is left over.
   */
  lemma LatestExactly(vs: seq<Defines>, name: string)
    requires vs != [] && name in vs[|vs| - 1]
    ensures var ls, d, k, p := Run(vs).loggers, vs[|vs| - 1][name], LastEvent(vs, name), LastFormatter(vs, name);
            && name in ls && k >= 0 && name in vs[k]
            && (ls[name] == FromScratch(d) <==>
                  && BuiltAll(vs[k][name].appenders) == BuiltAll(d.appenders)
                  && (Effective(d.formatter) || p == -1 || vs[p][name].formatter == DEFAULT_PATTERN))
  {
    RunMatchesExactly(vs, name);
    FromScratchExactly(vs, name);
    LastDefinition(vs, name);
    var d, e := vs[|vs| - 1][name], vs[LastEvent(vs, name)][name];
    hide Run, LastEvent, LastFormatter, Effective, BuiltAll;
    assert FromScratch(d).pattern == FromScratch(e).pattern;
  }

  const CONSOLE := LogAppenderDefine(2, Unknow, "", "")
  const BEFORE: Defines := map["a" := LogDefine("a", Info, "", []), "b" := LogDefine("b", Info, "", [])]
  const AFTER: Defines := map["a" := LogDefine("a", Info, "", [CONSOLE]), "b" := LogDefine("b", Warn, "", [])]

  /**
   One such change: the definition of "a" gets a console appender while "b" gets
   another level.  The variable takes the new value, but logger "a" still has no
   appender.
   */
  lemma HiddenEditExample()
    ensures var s := Run([BEFORE, AFTER]);
            && s.defines == AFTER && "a" in s.loggers
            && s.loggers["a"].appenders == [] && |FromScratch(AFTER["a"]).appenders| == 1
  {
    hide Run, Step, FromScratch;
    BeforeTaken();
    AppenderMissed(Run([BEFORE]));
    assert [BEFORE] + [AFTER] == [BEFORE, AFTER];
    RunSnoc([BEFORE], AFTER);
  }

  lemma BeforeTaken()
    ensures var s := Run([BEFORE]);
            s.defines == BEFORE && "a" in s.loggers && s.loggers["a"].appenders == []
  {
    assert [] + [BEFORE] == [BEFORE];
    RunSnoc([], BEFORE);
    assert "a" in BEFORE.Keys;
    assert !SameDefines(BEFORE, map[]);
    OnChangeAt(INITIAL.loggers, map[], BEFORE, "a");
    hide Run, OnChange, Effective;
  }

  lemma AppenderMissed(s: System)
    requires s.defines == BEFORE && "a" in s.loggers
    ensures var t := Step(s, AFTER);
            && t.defines == AFTER && "a" in t.loggers && t.loggers["a"] == s.loggers["a"]
            && "a" in AFTER && |FromScratch(AFTER["a"]).appenders| == 1
  {
    assert "b" in AFTER.Keys && "b" in BEFORE.Keys && "a" in AFTER.Keys;
    assert !SameDefine(AFTER["b"], BEFORE["b"]) && SameDefine(AFTER["a"], BEFORE["a"]);
    OnChangeAt(s.loggers, BEFORE, AFTER, "a");
    hide OnChange, Effective;
  }

  const WITH_FORMATTER: Defines := map["a" := LogDefine("a", Info, "%m", [])]
  const WITHOUT_FORMATTER: Defines := map["a" := LogDefine("a", Info, "", [])]

  /** A run where the formatter of "a" is taken out of its definition, but the logger keeps the pattern. */
  lemma LeftoverPatternExample()
    ensures var s := Run([WITH_FORMATTER, WITHOUT_FORMATTER]);
            && s.defines == WITHOUT_FORMATTER && "a" in s.loggers
            && s.loggers["a"].pattern == "%m" && FromScratch(WITHOUT_FORMATTER["a"]).pattern == DEFAULT_PATTERN
            && s.loggers["a"] != FromScratch(WITHOUT_FORMATTER["a"])
  {
    hide Run, Step, FromScratch, SameDefines;
    FormatterTaken();
    FormatterLeft(Run([WITH_FORMATTER]));
    assert [WITH_FORMATTER] + [WITHOUT_FORMATTER] == [WITH_FORMATTER, WITHOUT_FORMATTER];
    RunSnoc([WITH_FORMATTER], WITHOUT_FORMATTER);
    NotDefault();
  }

  /** The second of the two values takes it away. */
  lemma FormatterLeft(s: System)
    requires s.defines == WITH_FORMATTER && "a" in s.loggers
    ensures var t := Step(s, WITHOUT_FORMATTER);
            && t.defines == WITHOUT_FORMATTER && "a" in t.loggers && "a" in WITHOUT_FORMATTER
            && t.loggers["a"].pattern == s.loggers["a"].pattern
            && FromScratch(WITHOUT_FORMATTER["a"]).pattern == DEFAULT_PATTERN
  {
    assert "a" in WITH_FORMATTER && "a" in WITHOUT_FORMATTER;
    assert !SameDefine(WITHOUT_FORMATTER["a"], WITH_FORMATTER["a"]);
    assert !Effective("");
    OnChangeAt(s.loggers, WITH_FORMATTER, WITHOUT_FORMATTER, "a");
    hide OnChange, Effective, BuiltAll;
  }

  lemma NotDefault()
    ensures DEFAULT_PATTERN != "%m"
  {
    assert DEFAULT_PATTERN[1] == 'd' && "%m"[1] == 'm';
  }

  /** The first of the two values gives "a" its formatter. */
  lemma FormatterTaken()
    ensures var s := Run([WITH_FORMATTER]);
            s.defines == WITH_FORMATTER && "a" in s.loggers && s.loggers["a"].pattern == "%m"
  {
    assert [] + [WITH_FORMATTER] == [WITH_FORMATTER];
    RunSnoc([], WITH_FORMATTER);
    assert "a" in WITH_FORMATTER.Keys;
    assert !SameDefines(WITH_FORMATTER, map[]);
    MessageIsEffective();
    hide Run, OnChange, Effective;
    OnChangeAt(INITIAL.loggers, map[], WITH_FORMATTER, "a");
  }

  lemma MessageIsEffective()
    ensures Effective("%m")
  {
    Fields();
    NoError();
    hide IsError, Known;
    GoodBare("m", "");
    assert "%" + "m" + "" == "%m";
  }

  // ---------------------------------------------------------------------
  // Delivery

  /** "root" is always there. */
  lemma {:induction false} RootStays(vs: seq<Defines>)
    ensures "root" in Run(vs).loggers
  {
    if vs != [] {
      RootStays(vs[..|vs| - 1]);
      OnChangeAt(Run(vs[..|vs| - 1]).loggers, Run(vs[..|vs| - 1]).defines, vs[|vs| - 1], "root");
      hide OnChange;
    }
  }

  /**
   What an event on a name should write, from the values of a run alone: the
   definition that took effect last gives level, appenders and, unless an appender
   has one of its own, the pattern; without appenders, or without a definition,
   root takes the event.
   */
  function Configured(vs: seq<Defines>, name: string, level: Level, event: LogEvent): seq<Write>
    decreases name != "root"
  {
    var k := LastEvent(vs, name);
    var fallback := if name != "root" then Configured(vs, "root", level, event) else [];
    if k == -1 then
      if level == Unknow then []
      else if name == "root" then
        var line := Write(Stdout, RenderPattern(DEFAULT_PATTERN, "root", level, event) + "\n");
        [line, line]
      else fallback
    else if name !in vs[k] then fallback
    else if !AtLeast(level, vs[k][name].level) then []
    else if vs[k][name].appenders == [] then fallback
    else DefinedWrites(vs[k][name].appenders, LastPattern(vs, name), name, level, event)
  }

  /**
   Delivery is a function of configuration: after any run of changes, an event on
   any name, whose logger is made if there is none, writes what the values say.
   */
  lemma {:induction false} DeliveryIsConfigured(vs: seq<Defines>, name: string, level: Level, event: LogEvent)
    ensures var ls := Run(vs).loggers;
            && "root" in ls
            && Deliver(ls[name := StateOf(ls, name)], name, level, event) == Configured(vs, name, level, event)
    decreases name != "root"
  {
    RootStays(vs);
    Incremental(vs, name);
    var ls, k := Run(vs).loggers, LastEvent(vs, name);
    DeliverIs(ls, name, level, event);
    StateIs(ls, name);
    if name != "root" {
      NewIs(name);
      DeliveryIsConfigured(vs, "root", level, event);
      DeliverIs(ls, "root", level, event);
    }
    if k >= 0 && name in vs[k] {
      MatchesIs(ls[name], vs[k][name]);
    }
    hide *;
    LoggedIsConfigured(vs, name, StateOf(ls, name), StateOf(ls, "root"), level, event);
  }

  /** The same, for a logger of which it is known what a run has made of it. */
  lemma LoggedIsConfigured(
    vs: seq<Defines>, name: string, s: LoggerState, root: LoggerState, level: Level, event: LogEvent)
    requires var k := LastEvent(vs, name);
             && (k == -1 ==> s == if name == "root" then INITIAL_ROOT else LoggerState(Debug, DEFAULT_PATTERN, []))
             && (k >= 0 && name in vs[k] ==>
                   s.level == vs[k][name].level && s.appenders == BuiltAll(vs[k][name].appenders))
             && (k >= 0 && name !in vs[k] ==> s.level == Unknow && s.appenders == [])
             && s.pattern == LastPattern(vs, name)
    requires name != "root" ==> Logged(root, "root", None, level, event) == Configured(vs, "root", level, event)
    ensures Logged(s, name, if name == "root" then None else Some(root), level, event) ==
            Configured(vs, name, level, event)
  {
    var k := LastEvent(vs, name);
    if k >= 0 && name in vs[k] {
      var d := vs[k][name];
      assert |BuiltAll(d.appenders)| == |d.appenders|;
      RankOrder(level, d.level);
      BuiltWrites(d.appenders, s.pattern, name, level, event);
    }
    InitialWrites(level, event);
    RankOrder(level, Unknow);
    EveryLevel(level);
    hide LastEvent, LastPattern, Emit, BuiltAll, Changed, Dropped, DefinedWrites, AtLeast, RenderPattern;
  }

  lemma EveryLevel(level: Level)
    ensures AtLeast(level, Unknow)
  {
    RankOrder(level, Unknow);
  }

  /** The two appenders that root is made with. */
  lemma InitialWrites(level: Level, event: LogEvent)
    ensures var line := Write(Stdout, RenderPattern(DEFAULT_PATTERN, "root", level, event) + "\n");
            Emit(INITIAL_ROOT.appenders, DEFAULT_PATTERN, "root", level, event) ==
            if level == Unknow then [] else [line, line]
  {
    hide RenderPattern;
    var first := AppenderState(Stdout, Debug, Some(DEFAULT_PATTERN));
    var second := AppenderState(Stdout, Debug, None);
    assert INITIAL_ROOT.appenders == [first] + [second] && [second] + [] == [second];
    EmitFirst(first, [second], DEFAULT_PATTERN, "root", level, event);
    EmitFirst(second, [], DEFAULT_PATTERN, "root", level, event);
    hide Emit;
  }

  /** Delivery in terms of the two loggers that matter. */
  lemma DeliverIs(ls: LoggerMap, name: string, level: Level, event: LogEvent)
    requires "root" in ls
    ensures Deliver(ls[name := StateOf(ls, name)], name, level, event) ==
            Logged(StateOf(ls, name), name, if name == "root" then None else Some(StateOf(ls, "root")), level, event)
  {
    hide Logged, NewLogger;
  }

  lemma NewIs(name: string)
    requires name != "root"
    ensures NewLogger(name) == LoggerState(Debug, DEFAULT_PATTERN, [])
  {}
}
