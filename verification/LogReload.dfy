/** Formatters over whole runs, and dumping and reloading the loggers. */
module LogReload {
  import opened Common
  import opened DefaultPattern
  import opened LogActivity
  import opened LogCodec
  import opened LogDefines
  import opened LogFields
  import opened LogHistory
  import opened LogItems
  import opened LogLevels
  import opened Yaml

  /** The logger's pattern takes effect, and so does every pattern an appender has for itself. */
  predicate Formatted(s: LoggerState) {
    && Effective(s.pattern)
    && forall a :: a in s.appenders ==> a.own.Some? ==> Effective(a.own.value)
  }

  lemma ApplyFormatted(d: LogDefine, s: LoggerState)
    requires Effective(s.pattern)
    ensures Formatted(ApplyDefine(d, s))
  {
    hide Effective;
  }

  lemma NewFormatted(name: string)
    ensures Formatted(NewLogger(name)) && Formatted(INITIAL_ROOT)
  {
    DefaultIsEffective();
    hide Effective;
  }

  lemma OnChangeFormatted(ls: LoggerMap, oldValue: Defines, newValue: Defines, name: string)
    requires Formatted(StateOf(ls, name)) && name in OnChange(ls, oldValue, newValue)
    ensures Formatted(OnChange(ls, oldValue, newValue)[name])
  {
    OnChangeAt(ls, oldValue, newValue, name);
    hide OnChange, Effective;
    if name in Touched(oldValue, newValue) {
      ApplyFormatted(newValue[name], StateOf(ls, name));
    }
  }

  /**
   After any run of changes, no logger and no appender has an empty pattern or one
   in error, so every formatter that is used renders what its pattern says.
   */
  lemma {:induction false} RunFormatted(vs: seq<Defines>, name: string)
    requires name in Run(vs).loggers
    ensures Formatted(Run(vs).loggers[name])
  {
    NewFormatted(name);
    hide Formatted, OnChange, NewLogger;
    if vs != [] {
      var s, v := Run(vs[..|vs| - 1]), vs[|vs| - 1];
      if name in s.loggers {
        RunFormatted(vs[..|vs| - 1], name);
      }
      if !SameDefines(v, s.defines) {
        OnChangeFormatted(s.loggers, s.defines, v, name);
      }
    }
  }

  /** The same in any state that follows the run. */
  lemma FollowsFormatted(s: System, vs: seq<Defines>, name: string)
    requires Follows(s, vs) && name in s.loggers
    ensures Formatted(s.loggers[name])
  {
    NewFormatted(name);
    hide Formatted, NewLogger, Run;
    assert s.loggers[name] == StateOf(Run(vs).loggers, name);
    if name in Run(vs).loggers {
      RunFormatted(vs, name);
    }
  }

  // ---------------------------------------------------------------------
  // Dump and reload

  /** What a reload makes of a logger: appenders pass every level and share the logger's pattern. */
  function Reloaded(s: LoggerState): LoggerState {
    s.(appenders :=
      seq(|s.appenders|, i requires 0 <= i < |s.appenders| => AppenderState(s.appenders[i].sink, Unknow, None)))
  }

  function ReloadedAll(ls: LoggerMap): LoggerMap {
    map n | n in ls :: Reloaded(ls[n])
  }

  lemma ApplyDumped(name: string, s: LoggerState, t: LoggerState)
    requires Effective(s.pattern)
    ensures ApplyDefine(DumpedDefine(name, s), t) == Reloaded(s)
  {
    hide IsError;
  }

  /** The dump of a state that follows a run of changes, read back and set on a new manager. */
  lemma DumpFollows(s: System, vs: seq<Defines>, names: seq<string>)
    requires Follows(s, vs) && Enumerates(names, s.loggers.Keys)
    ensures var r := ReadDefines(DumpLoggers(s.loggers, names));
            r.Some? && Step(INITIAL, r.value).loggers == ReloadedAll(s.loggers)
  {
    hide Run, Step, OnChange, Reloaded, DumpedDefines;
    var ls := s.loggers;
    ReadDumpedLoggers(ls, names);
    var ds := DumpedDefines(ls);
    DumpSets(ls);
    forall n
      ensures n in OnChange(INITIAL.loggers, map[], ds) <==> n in ls
      ensures n in ls ==> OnChange(INITIAL.loggers, map[], ds)[n] == Reloaded(ls[n])
    {
      if n in ls {
        FollowsFormatted(s, vs, n);
      }
      ReloadedAt(ls, n);
    }
  }

  /**
   Dump and reload: from any state that changes of the variable, requests for
   loggers and logging lead to, the dump of all loggers, read back and set on a new
   manager, gives loggers of the same names, levels, patterns and ordered sinks; the
   levels and patterns of appenders are reset.
   */
  lemma DumpReload(acts: seq<Act>, names: seq<string>)
    requires Enumerates(names, RunActs(acts).loggers.Keys)
    ensures var ls := RunActs(acts).loggers;
            && ReadDefines(DumpLoggers(ls, names)).Some?
            && Run([ReadDefines(DumpLoggers(ls, names)).value]).loggers == ReloadedAll(ls)
  {
    ActsFollow(acts);
    DumpFollows(RunActs(acts), Changes(acts), names);
    hide *;
    var ds := ReadDefines(DumpLoggers(RunActs(acts).loggers, names)).value;
    RunSnoc([], ds);
    assert [] + [ds] == [ds];
  }

  /** The definitions of a dump are set on a new manager. */
  lemma DumpSets(ls: LoggerMap)
    requires "root" in ls
    ensures Step(INITIAL, DumpedDefines(ls)).loggers == OnChange(INITIAL.loggers, map[], DumpedDefines(ls))
  {
    hide OnChange;
    assert "root" in DumpedDefines(ls);
  }

  lemma ReloadedAt(ls: LoggerMap, n: string)
    requires "root" in ls && (n in ls ==> Formatted(ls[n]))
    ensures var after := OnChange(INITIAL.loggers, map[], DumpedDefines(ls));
            (n in after <==> n in ls) && (n in ls ==> after[n] == Reloaded(ls[n]))
  {
    OnChangeAt(INITIAL.loggers, map[], DumpedDefines(ls), n);
    if n in ls {
      ApplyDumped(n, ls[n], StateOf(INITIAL.loggers, n));
    }
    hide OnChange, Effective, ApplyDefine, Reloaded;
  }

  /** A reload leaves a logger as it is exactly if its appenders pass every level and share its pattern. */
  lemma ReloadExactly(s: LoggerState)
    ensures Reloaded(s) == s <==> forall a :: a in s.appenders ==> a.level == Unknow && a.own == None
    ensures Reloaded(Reloaded(s)) == Reloaded(s)
  {
    if Reloaded(s) == s {
      forall a | a in s.appenders ensures a.level == Unknow && a.own == None {
        var i :| 0 <= i < |s.appenders| && s.appenders[i] == a;
        assert Reloaded(s).appenders[i] == s.appenders[i];
      }
    }
    if forall a :: a in s.appenders ==> a.level == Unknow && a.own == None {
      forall i | 0 <= i < |s.appenders| ensures s.appenders[i] == Reloaded(s).appenders[i] {
        assert s.appenders[i] in s.appenders;
      }
      assert Reloaded(s).appenders == s.appenders;
    }
  }

  /** The dump of a new manager: root, of level DEBUG, with the default pattern and two console appenders. */
  lemma FirstDump()
    ensures var n := DumpLoggers(INITIAL.loggers, ["root"]);
            n.Sequence? && |n.items| == 1 && FirstDumped(n.items[0])
  {
    DumpedLoggerFields("root", INITIAL_ROOT);
    var first := AppenderState(Stdout, Debug, Some(DEFAULT_PATTERN));
    var second := AppenderState(Stdout, Debug, None);
    DumpedAppenderFields(first);
    DumpedAppenderFields(second);
    hide DumpLogger, DumpAppender, Field, Size, DEFAULT_PATTERN;
    assert LEVEL_NAMES[Position(Debug)] == "DEBUG";
  }

  predicate FirstDumped(n: Node) {
    && HasText(Field(n, "name"), "root") && HasText(Field(n, "level"), "DEBUG")
    && HasText(Field(n, "formatter"), DEFAULT_PATTERN)
    && Field(n, "appenders").Defined? && Field(n, "appenders").node.Sequence?
    && |Field(n, "appenders").node.items| == 2
    && forall a :: a in Field(n, "appenders").node.items ==>
         && HasText(Field(a, "type"), "StdoutLogAppender") && HasText(Field(a, "level"), "DEBUG")
         && Field(a, "file") == Undefined && Field(a, "formatter") == Undefined
  }

  const OWN_PATTERN := LogDefine("a", Info, "", [LogAppenderDefine(2, Unknow, "%m", "")])

  /** A logger, as its definition alone builds it, whose appender has a pattern of its own: a reload loses it. */
  lemma OwnPatternIsLost()
    ensures var s := FromScratch(OWN_PATTERN);
            && |s.appenders| == 1 && s.appenders[0] == AppenderState(Stdout, Unknow, Some("%m"))
            && Reloaded(s).appenders == [AppenderState(Stdout, Unknow, None)]
            && Reloaded(s) != s
  {
    MessageIsEffective();
    hide Effective;
    var s := FromScratch(OWN_PATTERN);
    assert s.appenders == [AppenderState(Stdout, Unknow, Some("%m"))];
    assert Reloaded(s).appenders[0] != s.appenders[0];
  }
}
