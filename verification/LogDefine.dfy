/** Definitions of loggers, as the "logs" variable holds them, and what they build. */
module LogDefines {
  import opened Common
  import opened LogItems
  import opened LogLevels

  /** kind is 1 for a file and 2 for the console. */
  datatype LogAppenderDefine = LogAppenderDefine(kind: int, level: Level, formatter: string, file: string)

  datatype LogDefine = LogDefine(name: string, level: Level, formatter: string, appenders: seq<LogAppenderDefine>)

  /** operator== as it is written: it compares the left operand's appenders with themselves. */
  predicate SameDefine(a: LogDefine, b: LogDefine) {
    a.name == b.name && a.level == b.level && a.formatter == b.formatter && a.appenders == a.appenders
  }

  /** A std::set of definitions: it is ordered by name, so it holds at most one for each name. */
  type Defines = m: map<string, LogDefine> | forall n :: n in m ==> m[n].name == n

  /** operator== of the set: as many elements, and equal ones. */
  predicate SameDefines(a: Defines, b: Defines) {
    a.Keys == b.Keys && forall n :: n in a ==> SameDefine(a[n], b[n])
  }

  /** What operator== sees of two definitions: it does not see the appenders. */
  predicate Alike(a: LogDefine, b: LogDefine) {
    a.name == b.name && a.level == b.level && a.formatter == b.formatter
  }

  predicate AllAlike(a: Defines, b: Defines) {
    a.Keys == b.Keys && forall n :: n in a ==> Alike(a[n], b[n])
  }

  lemma SameIsAlike()
    ensures forall a, b :: SameDefine(a, b) <==> Alike(a, b)
    ensures forall a: Defines, b: Defines :: SameDefines(a, b) <==> AllAlike(a, b)
  {}

  /** Every appender is a file or the console; the listener dereferences a null pointer for any other kind. */
  predicate Buildable(ds: Defines) {
    forall n :: n in ds ==> BuildableDefine(ds[n])
  }

  predicate BuildableDefine(d: LogDefine) {
    forall a :: a in d.appenders ==> a.kind == 1 || a.kind == 2
  }

  // ---------------------------------------------------------------------
  // Loggers, by value

  datatype Sink = Stdout | File(name: string)

  /** own is the appender's pattern, or None if it shares the formatter of its logger. */
  datatype AppenderState = AppenderState(sink: Sink, level: Level, own: Option<string>)

  datatype LoggerState = LoggerState(level: Level, pattern: string, appenders: seq<AppenderState>)

  /** The default pattern, one literal in the program, written here directive by directive. */
  const DEFAULT_PATTERN :=
    "%d{%Y-%m-%d %H:%M:%S}" + ("%T [" + ("%p]" + ("%T[" + ("%t]" + ("%T[" + ("%c]" + DEFAULT_END))))))
  const DEFAULT_END := "%T " + ("%f:" + ("%l" + ("%T " + ("%m  " + "%n"))))

  /** A formatter text that takes effect. */
  predicate Effective(formatter: string) {
    formatter != "" && !IsError(formatter)
  }

  function Built(a: LogAppenderDefine): AppenderState {
    AppenderState(
      if a.kind == 1 then File(a.file) else Stdout,
      a.level,
      if Effective(a.formatter) then Some(a.formatter) else None)
  }

  function BuiltAll(appenders: seq<LogAppenderDefine>): seq<AppenderState> {
    seq(|appenders|, i requires 0 <= i < |appenders| => Built(appenders[i]))
  }

  /** A logger on which a definition takes effect. */
  function ApplyDefine(d: LogDefine, s: LoggerState): LoggerState {
    LoggerState(d.level, if Effective(d.formatter) then d.formatter else s.pattern, BuiltAll(d.appenders))
  }

  /** A logger whose definition is removed. */
  function Retire(s: LoggerState): LoggerState {
    LoggerState(Unknow, s.pattern, [])
  }

  /** A logger as it is made. */
  function NewLogger(name: string): LoggerState {
    LoggerState(Debug, DEFAULT_PATTERN,
                if name == "root" then [AppenderState(Stdout, Debug, Some(DEFAULT_PATTERN))] else [])
  }

  /** The root logger of a new manager: its constructor and the manager's each give it an appender. */
  const INITIAL_ROOT := LoggerState(Debug, DEFAULT_PATTERN,
                                   [AppenderState(Stdout, Debug, Some(DEFAULT_PATTERN)),
                                    AppenderState(Stdout, Debug, None)])

  /** The logger that a definition alone builds. */
  function FromScratch(d: LogDefine): LoggerState {
    ApplyDefine(d, NewLogger(d.name))
  }

  /** Level and appenders are as the definition alone would build them. */
  predicate Matches(s: LoggerState, d: LogDefine) {
    s.level == FromScratch(d).level && s.appenders == FromScratch(d).appenders
  }

  // ---------------------------------------------------------------------
  // The listener, by value

  type LoggerMap = map<string, LoggerState>

  function StateOf(ls: LoggerMap, name: string): LoggerState {
    if name in ls then ls[name] else NewLogger(name)
  }

  /** The names whose definition is new, or differs from the old one by operator==. */
  function Touched(oldValue: Defines, newValue: Defines): (ns: set<string>)
    ensures ns <= newValue.Keys
  {
    set n | n in newValue && !(n in oldValue && SameDefine(newValue[n], oldValue[n]))
  }

  function Removed(oldValue: Defines, newValue: Defines): set<string> {
    oldValue.Keys - newValue.Keys
  }

  /** The loggers after the touched names are rebuilt and the removed ones retired. */
  function Update(ls: LoggerMap, ds: Defines, touched: set<string>, removed: set<string>): LoggerMap
    requires touched <= ds.Keys
  {
    map n | n in ls.Keys + touched + removed ::
      if n in touched then ApplyDefine(ds[n], StateOf(ls, n))
      else if n in removed then Retire(StateOf(ls, n))
      else ls[n]
  }

  function OnChange(ls: LoggerMap, oldValue: Defines, newValue: Defines): LoggerMap {
    Update(ls, newValue, Touched(oldValue, newValue), Removed(oldValue, newValue))
  }

  // ---------------------------------------------------------------------
  // Delivery, by value

  /** One text written to one stream. */
  datatype Write = Write(sink: Sink, text: string)

  /** What one appender writes; the console ends each event with a newline. */
  function WriteOf(a: AppenderState, pattern: string, logger: string, level: Level, event: LogEvent): Write {
    var p := match a.own case Some(own) => own case None => pattern;
    Write(a.sink, RenderPattern(p, logger, level, event) + if a.sink.Stdout? then "\n" else "")
  }

  function Passes(a: AppenderState, level: Level): bool {
    level.Rank() >= a.level.Rank()
  }

  /** What the appenders of one logger write, in order. */
  function Emit(
    appenders: seq<AppenderState>, pattern: string, logger: string, level: Level, event: LogEvent): seq<Write>
  {
    if appenders == [] then []
    else (if Passes(appenders[0], level) then [WriteOf(appenders[0], pattern, logger, level, event)] else [])
         + Emit(appenders[1..], pattern, logger, level, event)
  }

  /**
   What is emitted, by itself: the appenders that let the event pass, each once,
   in the order they have in the logger.
   */
  lemma {:induction false} EmitExactly(
    appenders: seq<AppenderState>, pattern: string, logger: string, level: Level, event: LogEvent)
    returns (order: seq<nat>)
    ensures forall i :: i in order <==> 0 <= i < |appenders| && AtLeast(level, appenders[i].level)
    ensures forall j, k :: 0 <= j < k < |order| ==> order[j] < order[k]
    ensures |Emit(appenders, pattern, logger, level, event)| == |order|
    ensures forall k :: 0 <= k < |order| ==>
              && order[k] < |appenders|
              && Emit(appenders, pattern, logger, level, event)[k] ==
                 WriteOf(appenders[order[k]], pattern, logger, level, event)
  {
    hide WriteOf, AtLeast;
    order := [];
    if appenders != [] {
      var n := |appenders| - 1;
      RankOrder(level, appenders[n].level);
      var front := appenders[..n];
      order := EmitExactly(front, pattern, logger, level, event);
      EmitSnoc(appenders, n, pattern, logger, level, event);
      assert appenders[..n + 1] == appenders;
      if Passes(appenders[n], level) {
        order := order + [n];
      }
    }
  }

  lemma EmitConcat(
    ss: seq<AppenderState>, ts: seq<AppenderState>, pattern: string, logger: string, level: Level, event: LogEvent)
    ensures Emit(ss + ts, pattern, logger, level, event) ==
            Emit(ss, pattern, logger, level, event) + Emit(ts, pattern, logger, level, event)
  {
    hide WriteOf;
    if ss == [] {
      assert ss + ts == ts;
    } else {
      assert (ss + ts)[1..] == ss[1..] + ts;
      EmitConcat(ss[1..], ts, pattern, logger, level, event);
    }
  }

  lemma EmitSnoc(ss: seq<AppenderState>, k: nat, pattern: string, logger: string, level: Level, event: LogEvent)
    requires k < |ss|
    ensures Emit(ss[..k + 1], pattern, logger, level, event) ==
            Emit(ss[..k], pattern, logger, level, event)
            + if Passes(ss[k], level) then [WriteOf(ss[k], pattern, logger, level, event)] else []
  {
    hide WriteOf;
    assert ss[..k + 1] == ss[..k] + [ss[k]];
    EmitConcat(ss[..k], [ss[k]], pattern, logger, level, event);
  }

  /** What an event writes on a logger in state s; root is the state of the logger it falls back on. */
  function Logged(s: LoggerState, name: string, root: Option<LoggerState>, level: Level, event: LogEvent): seq<Write>
    decreases root.Some?
  {
    if level.Rank() < s.level.Rank() then []
    else if s.appenders != [] then Emit(s.appenders, s.pattern, name, level, event)
    else match root
      case Some(r) => Logged(r, "root", None, level, event)
      case None => []
  }

  /** What an event on a named logger writes: every logger but root falls back on root. */
  function Deliver(ls: LoggerMap, name: string, level: Level, event: LogEvent): seq<Write>
    requires name in ls && "root" in ls
  {
    Logged(ls[name], name, if name == "root" then None else Some(ls["root"]), level, event)
  }

  // ---------------------------------------------------------------------
  // Delivery, by the fields of definitions

  /**
   What an appender that a definition asks for writes: to its file, or to the
   console with a newline at the end; with its own formatter if it names one that is
   not in error, and with its logger's pattern otherwise.
   */
  function DefinedWrite(a: LogAppenderDefine, pattern: string, logger: string, level: Level, event: LogEvent): Write {
    var p := if a.formatter != "" && !IsError(a.formatter) then a.formatter else pattern;
    if a.kind == 1 then Write(File(a.file), RenderPattern(p, logger, level, event))
    else Write(Stdout, RenderPattern(p, logger, level, event) + "\n")
  }

  /** One write for each appender whose level the event reaches, in order. */
  function DefinedWrites(
    appenders: seq<LogAppenderDefine>, pattern: string, logger: string, level: Level, event: LogEvent): seq<Write>
  {
    if appenders == [] then []
    else
      (if AtLeast(level, appenders[0].level) then [DefinedWrite(appenders[0], pattern, logger, level, event)] else [])
      + DefinedWrites(appenders[1..], pattern, logger, level, event)
  }

  lemma BuiltWrite(a: LogAppenderDefine, pattern: string, logger: string, level: Level, event: LogEvent)
    ensures Passes(Built(a), level) <==> AtLeast(level, a.level)
    ensures WriteOf(Built(a), pattern, logger, level, event) == DefinedWrite(a, pattern, logger, level, event)
  {
    RankOrder(level, a.level);
    hide IsError, RenderPattern, AtLeast;
    forall s: string ensures s + "" == s {}
  }

  /** The appenders that are built for a definition write what its fields say. */
  lemma {:induction false} BuiltWrites(
    appenders: seq<LogAppenderDefine>, pattern: string, logger: string, level: Level, event: LogEvent)
    ensures Emit(BuiltAll(appenders), pattern, logger, level, event) ==
            DefinedWrites(appenders, pattern, logger, level, event)
  {
    hide Built, WriteOf, Passes, DefinedWrite, AtLeast;
    if appenders != [] {
      assert BuiltAll(appenders)[0] == Built(appenders[0]) && BuiltAll(appenders)[1..] == BuiltAll(appenders[1..]);
      BuiltWrite(appenders[0], pattern, logger, level, event);
      BuiltWrites(appenders[1..], pattern, logger, level, event);
    }
  }

  /** The pattern of a logger on which a definition takes effect, by the definition's fields. */
  function DefinedPattern(d: LogDefine, before: string): string {
    if d.formatter != "" && !IsError(d.formatter) then d.formatter else before
  }

  /**
   A logger on which a definition has taken effect, whatever it was before: it drops
   the events below its level, and writes what the fields of its appenders say.
   */
  lemma AppliedWrites(
    d: LogDefine, s: LoggerState, name: string, root: Option<LoggerState>, level: Level, event: LogEvent)
    requires d.appenders != []
    ensures Logged(ApplyDefine(d, s), name, root, level, event) ==
            if !AtLeast(level, d.level) then []
            else DefinedWrites(d.appenders, DefinedPattern(d, s.pattern), name, level, event)
  {
    RankOrder(level, d.level);
    BuiltWrites(d.appenders, DefinedPattern(d, s.pattern), name, level, event);
    assert |BuiltAll(d.appenders)| == |d.appenders|;
    hide BuiltAll, Emit, DefinedWrites, AtLeast, IsError;
  }

  /**
   The filters, over the list of levels: an event at position i on a logger at
   position j with one appender at position k is written exactly if i is neither
   below j nor below k.
   */
  lemma LevelFilters(
    i: nat, j: nat, k: nat, s: LoggerState, name: string, root: Option<LoggerState>, event: LogEvent)
    requires i < 6 && j < 6 && k < 6
    requires |s.appenders| == 1 && s.level == LEVELS[j] && s.appenders[0].level == LEVELS[k]
    ensures Logged(s, name, root, LEVELS[i], event) ==
            if i >= j && i >= k then [WriteOf(s.appenders[0], s.pattern, name, LEVELS[i], event)] else []
  {
    Places(i, j);
    Places(i, k);
    RankOrder(LEVELS[i], LEVELS[j]);
    RankOrder(LEVELS[i], LEVELS[k]);
    OneAppender(s, name, root, LEVELS[i], event);
    hide *;
  }

  lemma OneAppender(s: LoggerState, name: string, root: Option<LoggerState>, level: Level, event: LogEvent)
    requires |s.appenders| == 1
    ensures Logged(s, name, root, level, event) ==
            if level.Rank() >= s.level.Rank() && level.Rank() >= s.appenders[0].level.Rank()
            then [WriteOf(s.appenders[0], s.pattern, name, level, event)] else []
  {
    var a := s.appenders[0];
    assert s.appenders == [a];
    EmitFirst(a, [], s.pattern, name, level, event);
    assert [a] + [] == [a];
    hide WriteOf, Emit;
  }

  lemma EmitFirst(
    a: AppenderState, rest: seq<AppenderState>, pattern: string, logger: string, level: Level, event: LogEvent)
    ensures Emit([a] + rest, pattern, logger, level, event) ==
            (if level.Rank() >= a.level.Rank() then [WriteOf(a, pattern, logger, level, event)] else [])
            + Emit(rest, pattern, logger, level, event)
    ensures Emit([], pattern, logger, level, event) == []
  {
    hide WriteOf;
    assert ([a] + rest)[1..] == rest;
  }
}
