/** The manager of all loggers, and the listener that keeps it in step with the "logs" variable. */
module LoggerManagers {
  import opened Common
  import opened LogCodec
  import opened LogDefines
  import opened LogHistory
  import opened LogItems
  import opened LogLevels
  import opened Loggers
  import opened Yaml

  /** One more name is rebuilt. */
  lemma UpdateTouched(ls: LoggerMap, ds: Defines, touched: set<string>, name: string)
    requires touched <= ds.Keys && name in ds && name !in touched
    ensures var before := Update(ls, ds, touched, {});
            Update(ls, ds, touched + {name}, {}) == before[name := ApplyDefine(ds[name], StateOf(before, name))]
  {}

  /** One more name is retired. */
  lemma UpdateRemoved(ls: LoggerMap, ds: Defines, touched: set<string>, removed: set<string>, name: string)
    requires touched <= ds.Keys && name !in touched && name !in removed
    ensures var before := Update(ls, ds, touched, removed);
            Update(ls, ds, touched, removed + {name}) == before[name := Retire(StateOf(before, name))]
  {}

  lemma Overwrites(m: LoggerMap, name: string, s: LoggerState, t: LoggerState)
    ensures m[name := s][name := t] == m[name := t]
  {}

  ghost predicate OwnedBy(appenders: seq<LogAppender>, owner: map<LogAppender, string>, n: string) {
    forall a :: a in appenders ==> a in owner && owner[a] == n
  }

  /** Some appenders get a logger as their owner. */
  ghost function Adopted(owner: map<LogAppender, string>, appenders: seq<LogAppender>, name: string)
    : (after: map<LogAppender, string>)
    ensures after.Keys == owner.Keys + set a | a in appenders
  {
    owner + map b | b in appenders :: name
  }

  lemma AdoptedNow(owner: map<LogAppender, string>, appenders: seq<LogAppender>, name: string)
    ensures OwnedBy(appenders, Adopted(owner, appenders, name), name)
  {}

  /** The appenders of other loggers keep theirs. */
  lemma AdoptedOthers(
    owner: map<LogAppender, string>, appenders: seq<LogAppender>, name: string, others: seq<LogAppender>, n: string)
    requires OwnedBy(others, owner, n) && forall a :: a in appenders ==> a !in owner
    ensures OwnedBy(others, Adopted(owner, appenders, name), n)
  {}

  /** No logger is replaced: whoever holds one goes on holding the logger of its name. */
  ghost predicate Extends(before: map<string, Logger>, after: map<string, Logger>) {
    forall n :: n in before ==> n in after && after[n] == before[n]
  }

  lemma ExtendsTwice(a: map<string, Logger>, b: map<string, Logger>, c: map<string, Logger>)
    requires Extends(a, b) && Extends(b, c)
    ensures Extends(a, c)
  {}

  lemma ExtendsItself(a: map<string, Logger>)
    ensures Extends(a, a)
  {}

  class LoggerManager {
    var loggers: map<string, Logger>
    const root: Logger
    /** The name of the logger that each appender in use belongs to. */
    ghost var owner: map<LogAppender, string>
    ghost var Repr: set<object>

    /** Every logger has appenders of its own, and falls back on root unless it is root. */
    ghost predicate Valid()
      reads this, Repr
    {
      && this in Repr
      && (forall n :: n in loggers ==> loggers[n] in Repr)
      && (forall a :: a in owner ==> a in Repr)
      && (forall n :: n in loggers ==> Owned(n) && ValidLogger(n))
      && "root" in loggers && loggers["root"] == root
    }

    ghost predicate Owned(n: string)
      requires n in loggers
      reads this, loggers[n]
    {
      OwnedBy(loggers[n].appenders, owner, n)
    }

    ghost predicate ValidLogger(n: string)
      requires n in loggers
      reads this`loggers, loggers[n], loggers[n].appenders
    {
      && loggers[n].name == n && loggers[n].Valid()
      && loggers[n].root == if n == "root" then null else root
    }

    /** The loggers, by value. */
    ghost function States(): LoggerMap
      requires Valid()
      reads this, Repr
    {
      map n | n in loggers :: loggers[n].State()
    }

    constructor ()
      ensures Valid() && fresh(Repr)
      ensures States() == INITIAL.loggers
    {
      hide Logger.State, Logger.Valid, OwnedBy, Adopted, LoggerManager.Valid, LoggerManager.States;
      var r := NewRoot();
      root := r;
      loggers := map["root" := r];
      owner := Adopted(map[], r.appenders, "root");
      Repr := {this, r} + set b | b in r.appenders;
      new;
      JustRoot();
    }

    lemma JustRoot()
      requires loggers == map["root" := root] && owner == Adopted(map[], root.appenders, "root")
      requires Repr == {this, root} + set b | b in root.appenders
      requires root.name == "root" && root.root == null && root.Valid() && root.State() == INITIAL_ROOT
      ensures Valid() && States() == INITIAL.loggers
    {
      hide Logger.State, Logger.Valid, OwnedBy, Adopted;
      AdoptedNow(map[], root.appenders, "root");
    }

    /** The root logger: its own constructor gives it one console appender, and the manager another. */
    static method NewRoot() returns (r: Logger)
      ensures fresh(r) && (forall a :: a in r.appenders ==> fresh(a))
      ensures r.name == "root" && r.root == null && r.Valid() && r.State() == INITIAL_ROOT
    {
      hide ValidAppenders, AppenderStates;
      r := new Logger("root");
      ghost var own := r.appenders;
      var a := new LogAppender(Stdout);
      r.AddAppender(a);
      StatesSnoc(own, a, r.formatter);
      ValidSnoc(own, "root", a);
      assert r.State() == INITIAL_ROOT;
    }

    /** The logger of a name; it is made if there is none yet. */
    method GetLogger(name: string) returns (logger: Logger)
      requires Valid()
      modifies this
      ensures Valid() && fresh(Repr - old(Repr))
      ensures name in loggers && logger == loggers[name]
      ensures States() == old(States())[name := StateOf(old(States()), name)]
      ensures Extends(old(loggers), loggers)
    {
      hide Logger.State, Logger.Valid;
      if name in loggers {
        logger := loggers[name];
        assert States() == old(States())[name := StateOf(old(States()), name)];
      } else {
        logger := NewChild(name);
        Insert(logger);
      }
    }

    /** A new logger that falls back on root. */
    method NewChild(name: string) returns (logger: Logger)
      ensures fresh(logger) && (forall a :: a in logger.appenders ==> fresh(a))
      ensures logger.name == name && logger.root == root && logger.Valid() && logger.State() == NewLogger(name)
    {
      logger := new Logger(name);
      logger.root := root;
      assert logger.State() == NewLogger(name);
    }

    /** A logger is entered under its name. */
    method Insert(logger: Logger)
      requires Valid()
      requires logger.name !in loggers && logger.Valid() && logger.root == root
      requires forall a :: a in logger.appenders ==> a !in owner
      modifies this
      ensures Valid() && Repr == old(Repr) + {logger} + set b | b in logger.appenders
      ensures loggers == old(loggers)[logger.name := logger]
      ensures States() == old(States())[logger.name := logger.State()]
    {
      hide Logger.State, Logger.Valid;
      ghost var before := States();
      loggers := loggers[logger.name := logger];
      Repr := Repr + {logger};
      forall n | n in loggers && n != logger.name
        ensures Owned(n) && ValidLogger(n) && loggers[n].State() == before[n]
      {
        assert old(Owned(n) && ValidLogger(n));
      }
      Adopt(logger.name, before);
    }

    /** Everything is in order but for the appenders of one logger, which have no owner yet. */
    ghost predicate ValidBut(name: string)
      reads this, Repr
    {
      && this in Repr
      && (forall n :: n in loggers ==> loggers[n] in Repr)
      && (forall a :: a in owner ==> a in Repr)
      && (forall n :: n in loggers && n != name ==> Owned(n) && ValidLogger(n))
      && "root" in loggers && loggers["root"] == root
    }

    /** The appenders of that logger get it as their owner. */
    ghost method Adopt(name: string, before: LoggerMap)
      requires ValidBut(name) && name in loggers && ValidLogger(name)
      requires forall a :: a in loggers[name].appenders ==> a !in owner
      requires before.Keys + {name} == loggers.Keys
      requires forall n :: n in loggers && n != name ==> loggers[n].State() == before[n]
      modifies this`owner, this`Repr
      ensures Valid() && Repr == old(Repr) + set b | b in loggers[name].appenders
      ensures States() == before[name := loggers[name].State()]
    {
      hide Logger.State, Logger.Valid, ValidLogger, LoggerManager.States, OwnedBy, Adopted;
      ghost var was, adopted := owner, loggers[name].appenders;
      owner := Adopted(was, adopted, name);
      Repr := Repr + set b | b in adopted;
      forall n | n in loggers
        ensures OwnedBy(loggers[n].appenders, owner, n)
      {
        if n != name {
          assert old(Owned(n));
          AdoptedOthers(was, adopted, name, loggers[n].appenders, n);
        } else {
          AdoptedNow(was, adopted, name);
        }
      }
      StatesAre(name, before);
    }

    /** The loggers by value, when all but one are as before. */
    lemma StatesAre(name: string, before: LoggerMap)
      requires Valid() && name in loggers && before.Keys + {name} == loggers.Keys
      requires forall n :: n in loggers && n != name ==> loggers[n].State() == before[n]
      ensures States() == before[name := loggers[name].State()]
    {
      hide Logger.State, LoggerManager.Valid;
    }

    /** Other loggers do not notice when one logger and its appenders are written. */
    twostate lemma OthersUntouched(name: string)
      requires old(Valid()) && unchanged(this) && name in loggers
      requires forall n :: n in loggers && n != name ==>
                 unchanged(loggers[n]) && forall a :: a in loggers[n].appenders ==> unchanged(a)
      ensures ValidBut(name)
      ensures forall n :: n in loggers && n != name ==> loggers[n].State() == old(loggers[n].State())
    {
      forall n | n in loggers && n != name
        ensures Owned(n) && ValidLogger(n) && loggers[n].State() == old(loggers[n].State())
      {
        assert old(Owned(n) && ValidLogger(n));
        Untouched(loggers[n]);
      }
    }

    /** The appenders of the other loggers are not among this one's. */
    lemma ValidApart(name: string)
      requires Valid() && name in loggers
      ensures forall n :: n in loggers && n != name ==>
                loggers[n] != loggers[name] && forall a :: a in loggers[n].appenders ==> a !in loggers[name].appenders
    {
      forall n | n in loggers && n != name
        ensures loggers[n] != loggers[name]
        ensures forall a :: a in loggers[n].appenders ==> a !in loggers[name].appenders
      {
        assert Owned(n) && Owned(name) && ValidLogger(n) && ValidLogger(name);
      }
    }

    /** A new or changed definition takes effect. */
    method Configure(d: LogDefine)
      requires Valid() && BuildableDefine(d)
      modifies Repr
      ensures Valid() && fresh(Repr - old(Repr))
      ensures States() == old(States())[d.name := ApplyDefine(d, StateOf(old(States()), d.name))]
      ensures Extends(old(loggers), loggers)
    {
      hide LoggerManager.Valid, LoggerManager.States, Logger.State, Logger.Valid, ApplyDefine, StateOf;
      RootIsThere();
      var logger := GetLogger(d.name);
      ghost var before := States();
      RootIsThere();
      RebuildLogger(logger, d);
      Overwrites(old(States()), d.name, before[d.name], States()[d.name]);
    }

    /** The logger of a definition is rebuilt. */
    method RebuildLogger(logger: Logger, d: LogDefine)
      requires Valid() && BuildableDefine(d) && d.name in loggers && logger == loggers[d.name]
      modifies Repr
      ensures Valid() && fresh(Repr - old(Repr))
      ensures d.name in old(States()) && States() == old(States())[d.name := ApplyDefine(d, old(States())[d.name])]
      ensures Extends(old(loggers), loggers)
    {
      hide LoggerManager.Valid, LoggerManager.States, LoggerManager.ValidBut, Logger.State, Logger.Valid;
      hide ApplyDefine, OwnedBy;
      ghost var before := States();
      ValidApart(d.name);
      InUse(d.name);
      logger.Rebuild(d);
      OthersUntouched(d.name);
      Adopt(d.name, before);
    }

    /** The definition of a name is removed. */
    method Forget(name: string)
      requires Valid()
      modifies Repr
      ensures Valid() && fresh(Repr - old(Repr))
      ensures States() == old(States())[name := Retire(StateOf(old(States()), name))]
      ensures Extends(old(loggers), loggers)
    {
      hide LoggerManager.Valid, LoggerManager.States, Logger.State, Logger.Valid, Retire, StateOf;
      RootIsThere();
      var logger := GetLogger(name);
      ghost var before := States();
      RootIsThere();
      RetireLogger(logger, name);
      Overwrites(old(States()), name, before[name], States()[name]);
    }

    /** The logger of a removed definition is retired. */
    method RetireLogger(logger: Logger, name: string)
      requires Valid() && name in loggers && logger == loggers[name]
      modifies Repr
      ensures Valid() && fresh(Repr - old(Repr))
      ensures name in old(States()) && States() == old(States())[name := Retire(old(States())[name])]
      ensures Extends(old(loggers), loggers)
    {
      hide LoggerManager.Valid, LoggerManager.States, LoggerManager.ValidBut, Logger.State, Logger.Valid;
      hide Retire, OwnedBy;
      ghost var before := States();
      ValidApart(name);
      InUse(name);
      logger.Withdraw();
      OthersUntouched(name);
      Adopt(name, before);
    }

    /** Loggers and appenders are among the manager's objects; the loggers by value are those of the objects. */
    lemma InUse(name: string)
      requires Valid() && name in loggers
      ensures this in Repr && loggers[name] in Repr && ValidLogger(name)
      ensures forall a :: a in loggers[name].appenders ==> a in Repr
      ensures forall a :: a in owner ==> a in Repr
      ensures States().Keys == loggers.Keys && forall n :: n in loggers ==> States()[n] == loggers[n].State()
    {
      hide Logger.State, Logger.Valid;
      assert Owned(name);
    }

    /** An event on a logger; it may make a console appender's default formatter, but changes no state. */
    method Log(name: string, level: Level, event: LogEvent) returns (out: seq<Write>)
      requires Valid() && name in loggers
      modifies Repr
      ensures Valid() && Repr == old(Repr) && States() == old(States())
      ensures out == Deliver(States(), name, level, event)
      ensures loggers == old(loggers)
    {
      hide Logger.State, Logger.Valid, Logged;
      assert ValidLogger(name) && ValidLogger("root");
      out := loggers[name].Log(level, event);
      forall n | n in loggers
        ensures Owned(n) && ValidLogger(n) && loggers[n].State() == old(loggers[n].State())
      {
        assert old(Owned(n) && ValidLogger(n));
        KeptState(loggers[n]);
      }
    }

    /** The listener's first loop: new and changed definitions take effect, unchanged ones are skipped. */
    method ConfigureTouched(oldValue: Defines, newValue: Defines)
      requires Valid() && Buildable(newValue)
      modifies Repr
      ensures Valid() && fresh(Repr - old(Repr))
      ensures States() == Update(old(States()), newValue, Touched(oldValue, newValue), {})
      ensures Extends(old(loggers), loggers)
    {
      hide Update, Touched, LoggerManager.Valid, LoggerManager.States, ApplyDefine;
      ghost var ls := States();
      ghost var touched := Touched(oldValue, newValue);
      ghost var done: set<string> := {};
      UpdateNone(ls, newValue);
      var names := newValue.Keys;
      while names != {}
        invariant Valid() && fresh(Repr - old(Repr)) && Extends(old(loggers), loggers)
        invariant names <= newValue.Keys && done == touched - names
        invariant States() == Update(ls, newValue, done, {})
        decreases names
      {
        var name :| name in names;
        names := names - {name};
        var i := newValue[name];
        TouchedAt(oldValue, newValue, name);
        if name !in oldValue || !SameDefine(i, oldValue[name]) {
          Configure(i);
          UpdateTouched(ls, newValue, done, name);
          done := done + {name};
        }
        assert done == touched - names;
      }
      assert done == touched;
    }

    /** The listener's second loop: loggers of removed definitions are retired. */
    method ForgetRemoved(oldValue: Defines, newValue: Defines, ghost ls: LoggerMap, ghost touched: set<string>)
      requires Valid() && touched <= newValue.Keys && States() == Update(ls, newValue, touched, {})
      modifies Repr
      ensures Valid() && fresh(Repr - old(Repr))
      ensures States() == Update(ls, newValue, touched, Removed(oldValue, newValue))
      ensures Extends(old(loggers), loggers)
    {
      hide Update, LoggerManager.Valid, LoggerManager.States, Retire;
      ghost var gone: set<string> := {};
      ghost var removed := Removed(oldValue, newValue);
      var names := oldValue.Keys;
      while names != {}
        invariant Valid() && fresh(Repr - old(Repr)) && Extends(old(loggers), loggers)
        invariant names <= oldValue.Keys && gone == removed - names
        invariant States() == Update(ls, newValue, touched, gone)
        decreases names
      {
        var name :| name in names;
        names := names - {name};
        if name !in newValue {
          Forget(name);
          UpdateRemoved(ls, newValue, touched, gone, name);
          gone := gone + {name};
        }
        assert gone == removed - names;
      }
      assert gone == removed;
    }

    /**
     The listener.  It reports the change on root, rebuilds the loggers of new and
     changed definitions, and retires those of removed ones.  A std::set is visited
     in the order of names; the result is the same for every order.
     */
    method OnLogDefinesChanged(oldValue: Defines, newValue: Defines, notice: LogEvent) returns (out: seq<Write>)
      requires Valid() && Buildable(newValue)
      modifies Repr
      ensures Valid() && fresh(Repr - old(Repr))
      ensures States() == OnChange(old(States()), oldValue, newValue)
      ensures out == Deliver(old(States()), "root", Info, notice)
      ensures Extends(old(loggers), loggers)
    {
      hide *;
      RootIsThere();
      ghost var ls := States();
      ghost var touched := TouchedNames(oldValue, newValue);
      OnChangeIs(ls, oldValue, newValue);
      out := Log("root", Info, notice);
      ConfigureTouched(oldValue, newValue);
      ghost var between := loggers;
      ForgetRemoved(oldValue, newValue, ls, touched);
      ExtendsTwice(old(loggers), between, loggers);
    }

    /** All loggers; a std::map lists them in the order of names, and any order reads back the same. */
    method ToYaml() returns (node: Node)
      requires Valid()
      ensures exists names :: Enumerates(names, States().Keys) && node == DumpLoggers(States(), names)
    {
      hide Logger.State, Logger.Valid, DumpLogger;
      var nodes: seq<Node> := [];
      ghost var names: seq<string> := [];
      var left := loggers.Keys;
      while left != {}
        invariant left <= loggers.Keys && Enumerates(names, loggers.Keys - left)
        invariant |nodes| == |names| && forall i :: 0 <= i < |names| ==>
                      names[i] in States() && nodes[i] == DumpLogger(names[i], States()[names[i]])
        decreases left
      {
        var name :| name in left;
        left := left - {name};
        assert ValidLogger(name);
        var n := loggers[name].ToYaml();
        nodes := nodes + [n];
        names := names + [name];
      }
      assert loggers.Keys - left == loggers.Keys == States().Keys;
      node := if nodes == [] then Null else Sequence(nodes);
      assert node == DumpLoggers(States(), names);
    }

    /**
     Every appender in use has a formatter, but for the one that root is made with,
     which may not have made its own yet; and one without a pattern of its own holds
     the formatter of its logger.
     */
    lemma AppenderFormatted(name: string, i: nat)
      requires Valid() && name in loggers && i < |loggers[name].appenders|
      ensures var a := loggers[name].appenders[i];
              && (a.formatter == null ==> name == "root" && a == loggers[name].appenders[0])
              && (States()[name].appenders[i].own == None <==> a.formatter == loggers[name].formatter)
    {
      assert ValidLogger(name);
      assert loggers[name].appenders[i] in loggers[name].appenders;
    }

    lemma RootIsThere()
      requires Valid()
      ensures this in Repr && "root" in loggers && "root" in States()
    {}
  }

  lemma TouchedNames(oldValue: Defines, newValue: Defines) returns (touched: set<string>)
    ensures touched == Touched(oldValue, newValue) && touched <= newValue.Keys
  {
    touched := Touched(oldValue, newValue);
  }

  lemma TouchedAt(oldValue: Defines, newValue: Defines, name: string)
    requires name in newValue
    ensures name in Touched(oldValue, newValue) <==> name !in oldValue || !SameDefine(newValue[name], oldValue[name])
    ensures Touched(oldValue, newValue) <= newValue.Keys
  {}

  lemma UpdateNone(ls: LoggerMap, ds: Defines)
    ensures Update(ls, ds, {}, {}) == ls
  {}

  lemma OnChangeIs(ls: LoggerMap, oldValue: Defines, newValue: Defines)
    ensures OnChange(ls, oldValue, newValue) ==
            Update(ls, newValue, Touched(oldValue, newValue), Removed(oldValue, newValue))
  {}
}
