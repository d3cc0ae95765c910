/** Runs in which a program also asks for loggers and logs between the changes of the variable. */
module LogActivity {
  import opened Common
  import opened LogDefines
  import opened LogHistory
  import opened LogItems
  import opened LogLevels

  /**
   The variable gets a value, or the logger of a name is asked for, which makes it
   if there is none.  Writing an event changes no state, so to log on a name is to
   ask for its logger.
   */
  datatype Act = SetAct(v: Defines) | AskAct(name: string)

  function Asked(ls: LoggerMap, name: string): LoggerMap {
    ls[name := StateOf(ls, name)]
  }

  function AfterAct(s: System, act: Act): System {
    match act
    case SetAct(v) => Step(s, v)
    case AskAct(name) => System(s.defines, Asked(s.loggers, name))
  }

  function RunActs(acts: seq<Act>): System {
    if acts == [] then INITIAL else AfterAct(RunActs(acts[..|acts| - 1]), acts[|acts| - 1])
  }

  /** The values that the variable gets, in order. */
  function Changes(acts: seq<Act>): seq<Defines> {
    if acts == [] then []
    else Changes(acts[..|acts| - 1]) + match acts[|acts| - 1] case SetAct(v) => [v] case AskAct(_) => []
  }

  /** The state is that after a run of changes, except that some loggers may have been made early. */
  ghost predicate Follows(s: System, vs: seq<Defines>) {
    && s.defines == Run(vs).defines && "root" in s.loggers
    && (forall n :: n in Run(vs).loggers ==> n in s.loggers)
    && forall n :: StateOf(s.loggers, n) == StateOf(Run(vs).loggers, n)
  }

  lemma FollowsStart()
    ensures Follows(INITIAL, [])
  {}

  /** A change does to a logger that was made early what it would do to the one it makes itself. */
  lemma SameChange(early: LoggerMap, ls: LoggerMap, oldValue: Defines, newValue: Defines, name: string)
    requires StateOf(early, name) == StateOf(ls, name)
    ensures var after, plain := OnChange(early, oldValue, newValue), OnChange(ls, oldValue, newValue);
            && StateOf(after, name) == StateOf(plain, name)
            && ((name in ls ==> name in early) ==> name in plain ==> name in after)
            && (name in early ==> name in after)
  {
    OnChangeAt(early, oldValue, newValue, name);
    OnChangeAt(ls, oldValue, newValue, name);
    hide OnChange, ApplyDefine, Retire, NewLogger;
  }

  lemma FollowsStep(s: System, vs: seq<Defines>, v: Defines)
    requires Follows(s, vs)
    ensures Follows(Step(s, v), vs + [v])
  {
    RunSnoc(vs, v);
    var t := Run(vs);
    hide Run, OnChange, StateOf, SameDefines;
    assert StateOf(s.loggers, "root") == StateOf(t.loggers, "root");
    forall n
      ensures StateOf(Step(s, v).loggers, n) == StateOf(Step(t, v).loggers, n)
      ensures n in Step(t, v).loggers ==> n in Step(s, v).loggers
      ensures n == "root" ==> n in Step(s, v).loggers
    {
      SameChange(s.loggers, t.loggers, s.defines, v, n);
    }
  }

  lemma FollowsAsk(s: System, vs: seq<Defines>, name: string)
    requires Follows(s, vs)
    ensures Follows(System(s.defines, Asked(s.loggers, name)), vs)
  {
    hide Run, NewLogger;
  }

  /** After any run of changes and requests for loggers, the state is that after the changes alone. */
  lemma {:induction false} ActsFollow(acts: seq<Act>)
    ensures Follows(RunActs(acts), Changes(acts))
  {
    hide Follows, Step, Run, Asked;
    if acts == [] {
      FollowsStart();
    } else {
      var n := |acts| - 1;
      ActsFollow(acts[..n]);
      match acts[n]
      case SetAct(v) => FollowsStep(RunActs(acts[..n]), Changes(acts[..n]), v);
      case AskAct(name) =>
        FollowsAsk(RunActs(acts[..n]), Changes(acts[..n]), name);
        assert Changes(acts[..n]) + [] == Changes(acts[..n]);
    }
  }

  /**
   Asking for loggers between changes is invisible: the variable and every logger,
   made or yet to be made, are as after the changes alone; and the loggers there
   are, are those of the changes and those asked for.
   */
  lemma AskingIsInvisible(acts: seq<Act>, name: string)
    ensures var s, t := RunActs(acts), Run(Changes(acts));
            && s.defines == t.defines && StateOf(s.loggers, name) == StateOf(t.loggers, name)
            && (name in s.loggers <==> name in t.loggers || AskAct(name) in acts)
  {
    ActsFollow(acts);
    NamesOf(acts, name);
    hide Run, RunActs, Changes;
  }

  /** The names there are after a change. */
  lemma NamesAfter(s: System, v: Defines, name: string)
    ensures name in Step(s, v).loggers <==>
            || name in s.loggers
            || (!SameDefines(v, s.defines) && name in Touched(s.defines, v) + Removed(s.defines, v))
  {
    OnChangeAt(s.loggers, s.defines, v, name);
    hide OnChange, Touched, Removed, SameDefines;
  }

  lemma {:induction false} NamesOf(acts: seq<Act>, name: string)
    ensures name in RunActs(acts).loggers <==> name in Run(Changes(acts)).loggers || AskAct(name) in acts
  {
    if acts != [] {
      var n := |acts| - 1;
      var s, vs := RunActs(acts[..n]), Changes(acts[..n]);
      NamesOf(acts[..n], name);
      ActsFollow(acts[..n]);
      assert s.defines == Run(vs).defines;
      assert acts == acts[..n] + [acts[n]];
      hide Run, Follows, Step, StateOf;
      match acts[n]
      case SetAct(v) =>
        RunSnoc(vs, v);
        NamesAfter(s, v, name);
        NamesAfter(Run(vs), v, name);
      case AskAct(_) =>
        assert vs + [] == vs;
    }
  }

  /** Delivery, in any state that follows a run of changes. */
  lemma DeliveryFollows(s: System, vs: seq<Defines>, name: string, level: Level, event: LogEvent)
    requires Follows(s, vs)
    ensures Deliver(Asked(s.loggers, name), name, level, event) == Configured(vs, name, level, event)
  {
    DeliveryIsConfigured(vs, name, level, event);
    RootStays(vs);
    hide Run, Configured, Logged;
    assert StateOf(s.loggers, "root") == StateOf(Run(vs).loggers, "root");
  }

  /**
   Delivery is a function of configuration at any time: after any run of changes
   and requests, an event on any name writes what the values alone say.
   */
  lemma DeliveryAnyTime(acts: seq<Act>, name: string, level: Level, event: LogEvent)
    ensures "root" in RunActs(acts).loggers
    ensures Deliver(Asked(RunActs(acts).loggers, name), name, level, event) ==
            Configured(Changes(acts), name, level, event)
  {
    ActsFollow(acts);
    DeliveryFollows(RunActs(acts), Changes(acts), name, level, event);
  }
}
