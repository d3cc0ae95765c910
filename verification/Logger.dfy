/** Appenders and loggers, as objects that share formatters. */
module Loggers {
  import opened Common
  import opened LogCodec
  import opened LogDefines
  import opened LogFormatting
  import opened LogItems
  import opened LogLevels
  import opened Yaml

  /** A file or console appender. */
  class LogAppender {
    const sink: Sink
    var level: Level
    var formatter: LogFormatter?
    var hasFormatter: bool

    constructor (sink: Sink)
      ensures this.sink == sink && level == Debug && formatter == null && !hasFormatter
    {
      this.sink := sink;
      level, formatter, hasFormatter := Debug, null, false;
    }

    /** A file appender needs a formatter; a console appender makes one when it first writes. */
    ghost predicate Valid()
      reads this
    {
      && (formatter != null ==> formatter.Valid())
      && (sink.File? ==> formatter != null)
    }

    ghost function Pattern(): string
      reads this
    {
      if formatter == null then DEFAULT_PATTERN else formatter.pattern
    }

    /** The appender as its logger sees it: f is the logger's formatter. */
    ghost function State(f: LogFormatter): AppenderState
      reads this
    {
      AppenderState(sink, level, if formatter == f then None else Some(Pattern()))
    }

    /** It leaves hasFormatter alone, which therefore never becomes true. */
    method SetFormatter(val: LogFormatter)
      modifies this`formatter
      ensures formatter == val
    {
      formatter := val;
    }

    method SetLevel(level: Level)
      modifies this`level
      ensures this.level == level
    {
      this.level := level;
    }

    /** A console appender without a formatter first makes itself one with the default pattern. */
    method Log(logger: string, level: Level, event: LogEvent) returns (out: seq<Write>)
      requires Valid()
      modifies this`formatter
      ensures Kept(this)
      ensures out == if level.Rank() < this.level.Rank() then []
                     else
                       var text := RenderPattern(Pattern(), logger, level, event);
                       [Write(sink, text + if sink.Stdout? then "\n" else "")]
    {
      out := [];
      if level.Rank() >= this.level.Rank() {
        if sink.Stdout? {
          if formatter == null {
            formatter := new LogFormatter(DEFAULT_PATTERN);
          }
          var text := formatter.Format(logger, level, event);
          out := [Write(Stdout, text + "\n")];
        } else {
          var text := formatter.Format(logger, level, event);
          assert text + "" == text;
          out := [Write(sink, text)];
        }
      }
    }

    /** The appender's own pattern is shown only if it is marked as having one. */
    method ToYaml() returns (n: Node)
      ensures n == AppenderNode(
                     Some(if sink.Stdout? then "StdoutLogAppender" else "FileLogAppender"),
                     if sink.File? then Some(sink.name) else None,
                     Some(level.ToString()),
                     if hasFormatter && formatter != null then Some(formatter.pattern) else None)
    {
      var entries: seq<KeyValue>;
      if sink.Stdout? {
        entries := [KeyValue("type", Scalar("StdoutLogAppender"))];
      } else {
        entries := [KeyValue("type", Scalar("FileLogAppender")), KeyValue("file", Scalar(sink.name))];
      }
      entries := entries + [KeyValue("level", Scalar(level.ToString()))];
      if hasFormatter && formatter != null {
        entries := entries + [KeyValue("formatter", Scalar(formatter.pattern))];
      }
      n := Map(entries);
    }
  }

  class Logger {
    const name: string
    var level: Level
    var appenders: seq<LogAppender>
    var formatter: LogFormatter
    var root: Logger?

    ghost predicate Valid()
      reads this, appenders
    {
      formatter.Valid() && ValidAppenders(appenders, name)
    }

    ghost function State(): LoggerState
      reads this, appenders
    {
      LoggerState(level, formatter.pattern, AppenderStates(appenders, formatter))
    }

    constructor (name: string)
      ensures Valid() && this.name == name && root == null && State() == NewLogger(name)
      ensures forall a :: a in appenders ==> fresh(a)
    {
      this.name := name;
      level, root := Debug, null;
      formatter := new LogFormatter(DEFAULT_PATTERN);
      appenders := [];
      if name == "root" {
        var a := new LogAppender(Stdout);
        appenders := [a];
      }
    }

    method AddAppender(appender: LogAppender)
      modifies this`appenders, appender`formatter
      ensures appenders == old(appenders) + [appender]
      ensures appender.formatter == if old(appender.formatter) == null then formatter else old(appender.formatter)
    {
      if appender.formatter == null {
        appender.formatter := formatter;
      }
      appenders := appenders + [appender];
    }

    method CleanAppenders()
      modifies this`appenders
      ensures appenders == []
    {
      appenders := [];
    }

    method SetLevel(val: Level)
      modifies this`level
      ensures level == val
    {
      level := val;
    }

    /** The logger's formatter, and that of every appender that is not marked as having its own. */
    method SetFormatterObject(f: LogFormatter)
      modifies this`formatter, appenders
      ensures formatter == f
      ensures forall a :: a in appenders ==>
                && a.level == old(a.level) && a.hasFormatter == old(a.hasFormatter)
                && a.formatter == if a.hasFormatter then old(a.formatter) else f
    {
      formatter := f;
      for k := 0 to |appenders|
        invariant appenders == old(appenders) && formatter == f
        invariant forall a :: a in appenders ==> a.level == old(a.level) && a.hasFormatter == old(a.hasFormatter)
        invariant forall a :: a in appenders ==>
                    a.formatter == if a in appenders[..k] && !a.hasFormatter then f else old(a.formatter)
      {
        var a := appenders[k];
        if !a.hasFormatter {
          a.formatter := f;
        }
        assert appenders[..k + 1] == appenders[..k] + [a];
      }
    }

    /** Nothing happens if the pattern is in error. */
    method SetFormatter(value: string)
      requires Valid()
      modifies this`formatter, appenders
      ensures Valid()
      ensures State() == if IsError(value) then old(State())
                         else LoggerState(level, value, Shared(old(State()).appenders))
    {
      var f := new LogFormatter(value);
      if f.error {
        return;
      }
      SetFormatterObject(f);
    }

    /** An appender for a definition, with a formatter of its own if it names one that takes effect. */
    static method BuildAppender(a: LogAppenderDefine) returns (ap: LogAppender)
      requires a.kind == 1 || a.kind == 2
      ensures fresh(ap) && !ap.hasFormatter
      ensures ap.sink == Built(a).sink && ap.level == a.level
      ensures match Built(a).own
              case Some(p) =>
                ap.formatter != null && fresh(ap.formatter) && ap.formatter.Valid() && ap.formatter.pattern == p
              case None => ap.formatter == null
    {
      if a.kind == 1 {
        ap := new LogAppender(File(a.file));
      } else {
        ap := new LogAppender(Stdout);
      }
      ap.SetLevel(a.level);
      if a.formatter != "" {
        var fmt := new LogFormatter(a.formatter);
        if !fmt.error {
          ap.SetFormatter(fmt);
        }
      }
    }

    /** One round of the listener's inner loop: the appender of a definition is built and added. */
    method AddDefined(a: LogAppenderDefine)
      requires Valid() && (a.kind == 1 || a.kind == 2)
      modifies this`appenders
      ensures Valid()
      ensures forall b :: b in appenders ==> b in old(appenders) || (fresh(b) && b.formatter != null)
      ensures AppenderStates(appenders, formatter) == old(AppenderStates(appenders, formatter)) + [Built(a)]
    {
      hide IsError, AppenderStates, ValidAppenders;
      ghost var before := appenders;
      var ap := BuildAppender(a);
      AddAppender(ap);
      assert ap.State(formatter) == Built(a);
      ValidSnoc(before, name, ap);
      StatesSnoc(before, ap, formatter);
    }

    /** The listener's inner loop: the appenders of a definition are built and added. */
    method AddAllDefined(d: LogDefine)
      requires Valid() && BuildableDefine(d) && appenders == []
      modifies this`appenders
      ensures Valid()
      ensures forall a :: a in appenders ==> fresh(a) && a.formatter != null
      ensures AppenderStates(appenders, formatter) == BuiltAll(d.appenders)
    {
      NoAppenders(formatter, name);
      assert d.appenders[..0] == [] && BuiltAll([]) == [];
      hide IsError, BuiltAll, AppenderStates, ValidAppenders;
      for k := 0 to |d.appenders|
        invariant Valid()
        invariant forall a :: a in appenders ==> fresh(a) && a.formatter != null
        invariant AppenderStates(appenders, formatter) == BuiltAll(d.appenders[..k])
      {
        AddDefined(d.appenders[k]);
        BuiltSnoc(d.appenders, k);
      }
      assert d.appenders[..|d.appenders|] == d.appenders;
    }

    /** The body of the listener's loop: the definition takes effect on this logger. */
    method Rebuild(d: LogDefine)
      requires Valid() && BuildableDefine(d)
      modifies this, appenders
      ensures Valid() && root == old(root)
      ensures State() == ApplyDefine(d, old(State()))
      ensures forall a :: a in appenders ==> fresh(a) && a.formatter != null
    {
      hide IsError, BuiltAll, AppenderStates, ValidAppenders, Shared;
      SetLevel(d.level);
      if d.formatter != "" {
        SetFormatter(d.formatter);
      }
      CleanAppenders();
      NoAppenders(formatter, name);
      assert formatter.pattern == ApplyDefine(d, old(State())).pattern;
      AddAllDefined(d);
    }

    method ToYaml() returns (n: Node)
      requires Valid()
      ensures n == DumpLogger(name, State())
    {
      var entries := [KeyValue("name", Scalar(name)), KeyValue("level", Scalar(level.ToString())),
                      KeyValue("formatter", Scalar(formatter.pattern))];
      ghost var head :=
        Entry("name", Some(name)) + Entry("level", Some(level.ToString()))
        + Entry("formatter", Some(formatter.pattern));
      assert entries == head && head + [] == head;
      var nodes := AppendersToYaml();
      if nodes != [] {
        entries := entries + [KeyValue("appenders", Sequence(nodes))];
      }
      n := Map(entries);
    }

    /** The loop of toYamlString over the appenders. */
    method AppendersToYaml() returns (nodes: seq<Node>)
      requires Valid()
      ensures nodes == DumpAppenders(State().appenders)
    {
      hide AppenderNode;
      nodes := [];
      for k := 0 to |appenders|
        invariant |nodes| == k && forall i :: 0 <= i < k ==> nodes[i] == DumpAppender(State().appenders[i])
      {
        var a := appenders[k];
        assert a in appenders && State().appenders[k] == a.State(formatter);
        var na := a.ToYaml();
        nodes := nodes + [na];
      }
    }

    /** What the listener does with a logger whose definition is removed. */
    method Withdraw()
      requires Valid()
      modifies this
      ensures Valid() && root == old(root) && appenders == []
      ensures State() == Retire(old(State()))
    {
      SetLevel(Unknow);
      CleanAppenders();
      assert State().appenders == [];
    }

    /** An event goes to the logger's appenders, or, if it has none, to the root logger. */
    method Log(level: Level, event: LogEvent) returns (out: seq<Write>)
      requires Valid()
      requires root != null ==> root.Valid() && root.root == null && root.name == "root"
      modifies appenders, if root == null then [] else root.appenders
      ensures forall a :: a in appenders || (root != null && a in root.appenders) ==> Kept(a)
      ensures out == Logged(old(State()), name, if root == null then None else Some(old(root.State())), level, event)
      decreases root != null
    {
      hide Emit;
      out := [];
      if level.Rank() >= this.level.Rank() {
        if appenders != [] {
          assert State().appenders != [];
          out := LogOwn(level, event);
        } else if root != null {
          assert State().appenders == [];
          out := root.Log(level, event);
        } else {
          assert State().appenders == [];
        }
      }
    }

    /** The loop of Log over the logger's own appenders. */
    method LogOwn(level: Level, event: LogEvent) returns (out: seq<Write>)
      requires Valid()
      modifies appenders
      ensures forall a :: a in appenders ==> Kept(a)
      ensures out == Emit(old(State()).appenders, formatter.pattern, name, level, event)
    {
      hide RenderPattern, Emit;
      out := [];
      ghost var ss := AppenderStates(appenders, formatter);
      EmitNone(formatter.pattern, name, level, event);
      for k := 0 to |appenders|
        invariant forall a :: a in appenders ==> Kept(a)
        invariant out == Emit(ss[..k], formatter.pattern, name, level, event)
      {
        var a := appenders[k];
        KeptState(this);
        assert a in appenders && a.State(formatter) == AppenderStates(appenders, formatter)[k] == ss[k];
        hide LogAppender.Valid, Kept, Logger.Valid, Logger.State;
        var w := a.Log(name, level, event);
        EmitSnoc(ss, k, formatter.pattern, name, level, event);
        out := out + w;
      }
      assert ss[..|appenders|] == ss;
    }
  }

  lemma EmitNone(pattern: string, logger: string, level: Level, event: LogEvent)
    ensures Emit([], pattern, logger, level, event) == []
  {}

  /** Writing leaves an appender as it was, but for a default formatter it may have made itself. */
  twostate predicate Kept(a: LogAppender)
    reads a
  {
    && a.level == old(a.level) && a.hasFormatter == old(a.hasFormatter)
    && (a.formatter == old(a.formatter) ||
        (old(a.formatter) == null && a.sink.Stdout? && fresh(a.formatter) && a.formatter.Valid() &&
         a.formatter.pattern == DEFAULT_PATTERN))
  }

  /** A logger nothing of which is written stays as it is. */
  twostate lemma Untouched(l: Logger)
    requires unchanged(l)
    requires forall a :: a in l.appenders ==> unchanged(a)
    ensures l.State() == old(l.State()) && l.Valid() == old(l.Valid())
  {
    assert forall a :: a in l.appenders ==>
             a.State(l.formatter) == old(a.State(l.formatter)) && a.Valid() == old(a.Valid());
  }

  /** A logger whose appenders are kept is in the same state as before. */
  twostate lemma KeptState(l: Logger)
    requires unchanged(l) && old(l.Valid())
    requires forall a :: a in l.appenders ==> Kept(a)
    ensures l.Valid() && l.State() == old(l.State())
  {
    assert forall a :: a in l.appenders ==> a.State(l.formatter) == old(a.State(l.formatter));
  }

  /** The appenders of a logger, in order; only the one that root is made with may lack a formatter. */
  ghost predicate ValidAppenders(appenders: seq<LogAppender>, name: string)
    reads appenders
  {
    && (forall a :: a in appenders ==> a.Valid() && !a.hasFormatter)
    && forall a :: a in appenders ==> a.formatter != null || (name == "root" && a == appenders[0])
  }

  lemma NoAppenders(f: LogFormatter, name: string)
    ensures ValidAppenders([], name) && AppenderStates([], f) == []
  {}

  lemma ValidSnoc(appenders: seq<LogAppender>, name: string, a: LogAppender)
    requires ValidAppenders(appenders, name) && a.Valid() && !a.hasFormatter && a.formatter != null
    ensures ValidAppenders(appenders + [a], name)
  {}

  ghost function AppenderStates(appenders: seq<LogAppender>, f: LogFormatter): (ss: seq<AppenderState>)
    reads appenders
    ensures |ss| == |appenders|
  {
    seq(|appenders|, i requires 0 <= i < |appenders| reads appenders => appenders[i].State(f))
  }

  lemma StatesSnoc(appenders: seq<LogAppender>, a: LogAppender, f: LogFormatter)
    ensures AppenderStates(appenders + [a], f) == AppenderStates(appenders, f) + [a.State(f)]
  {}

  lemma BuiltSnoc(appenders: seq<LogAppenderDefine>, k: nat)
    requires k < |appenders|
    ensures BuiltAll(appenders[..k + 1]) == BuiltAll(appenders[..k]) + [Built(appenders[k])]
  {
    hide Built;
  }

  /** Appenders that have lost their own formatter to their logger's. */
  function Shared(ss: seq<AppenderState>): seq<AppenderState> {
    seq(|ss|, i requires 0 <= i < |ss| => ss[i].(own := None))
  }
}
