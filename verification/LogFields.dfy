/** Definitions of loggers in YAML, field by field. */
module LogFields {
  import opened Common
  import opened LogCodec
  import opened LogDefines
  import opened LogItems
  import opened LogLevels
  import opened Yaml

  // ---------------------------------------------------------------------
  // Reading

  /** The value is there and is text. */
  predicate IsText(a: Access) {
    a.Defined? && a.node.Scalar?
  }

  /** Asking for the value as text fails: the node has no subscripts, or the value is there and is no text. */
  predicate NoText(a: Access) {
    a.Throws? || (a.Defined? && !a.node.Scalar?)
  }

  predicate HasText(a: Access, text: string) {
    a == Defined(Scalar(text))
  }

  /**
   An appender that makes the reader give up: its type is no text, or it is one of
   the two types there are and a value that the reader asks for is no text.  A file
   appender without a file is not asked for anything else.
   */
  predicate Bad(n: Node) {
    || NoText(Field(n, "type"))
    || (HasText(Field(n, "type"), "FileLogAppender") && Field(n, "file") != Undefined
        && (NoText(Field(n, "file")) || NoText(Field(n, "formatter"))))
    || (HasText(Field(n, "type"), "StdoutLogAppender") && NoText(Field(n, "formatter")))
  }

  /**
   An appender that the reader reports and leaves out: one without a type, one of
   another type, or a file appender without a file.
   */
  predicate LeftOut(n: Node) {
    || Field(n, "type") == Undefined
    || (IsText(Field(n, "type")) && !HasText(Field(n, "type"), "FileLogAppender")
        && !HasText(Field(n, "type"), "StdoutLogAppender"))
    || (HasText(Field(n, "type"), "FileLogAppender") && Field(n, "file") == Undefined)
  }

  /** a is the definition of the appender: its level is always UNKNOW, whatever the node says. */
  predicate IsDefinitionOf(a: LogAppenderDefine, n: Node) {
    && a.level == Unknow
    && (if Field(n, "formatter") == Undefined then a.formatter == "" else HasText(Field(n, "formatter"), a.formatter))
    && ((a.kind == 1 && HasText(Field(n, "type"), "FileLogAppender") && HasText(Field(n, "file"), a.file)) ||
        (a.kind == 2 && HasText(Field(n, "type"), "StdoutLogAppender") && a.file == ""))
  }

  lemma AppenderExactly(n: Node)
    ensures ReadAppender(n).AppenderThrows? <==> Bad(n)
    ensures ReadAppender(n).Skipped? <==> LeftOut(n)
    ensures ReadAppender(n).Accepted? ==> IsDefinitionOf(ReadAppender(n).a, n)
  {
    TypesDiffer();
    hide Field;
  }

  lemma TypesDiffer()
    ensures "FileLogAppender" != "StdoutLogAppender"
  {
    assert "FileLogAppender"[0] != "StdoutLogAppender"[0];
  }

  lemma {:induction false} AppendersRejected(v: Node, k: nat)
    requires k <= Size(v)
    ensures ReadAppenders(v, k).None? <==> exists i :: 0 <= i < k && Bad(Child(v, i))
  {
    hide Bad, LeftOut, IsDefinitionOf, ReadAppender, Child;
    if k > 0 {
      AppendersRejected(v, k - 1);
      AppenderExactly(Child(v, k - 1));
      AppendersStep(v, k);
      hide ReadAppenders;
    }
  }

  lemma AppendersStep(v: Node, k: nat)
    requires 0 < k <= Size(v)
    ensures ReadAppenders(v, k).None? <==>
            ReadAppenders(v, k - 1).None? || ReadAppender(Child(v, k - 1)).AppenderThrows?
    ensures ReadAppenders(v, k).Some? ==>
              ReadAppenders(v, k).value ==
              ReadAppenders(v, k - 1).value
              + if ReadAppender(Child(v, k - 1)).Accepted? then [ReadAppender(Child(v, k - 1)).a] else []
  {
    hide ReadAppender, Child;
  }

  /** When a definition is rejected, by its fields. */
  lemma RejectedExactly(n: Node)
    ensures ReadDefine(n).None? <==>
            || !IsText(Field(n, "name")) || NoText(Field(n, "level")) || NoText(Field(n, "formatter"))
            || (Field(n, "appenders").Defined? &&
                exists i :: 0 <= i < Size(Field(n, "appenders").node) && Bad(Child(Field(n, "appenders").node, i)))
  {
    if Field(n, "appenders").Defined? {
      AppendersRejected(Field(n, "appenders").node, Size(Field(n, "appenders").node));
    }
    hide Field, Bad, ReadAppenders, Child, Size, Level.FromString;
  }

  /** The text of a value, or nothing if it is not there. */
  function TextOr(a: Access): string {
    if IsText(a) then a.node.text else ""
  }

  /** The appenders of an accepted definition: those that are not left out, in their order. */
  lemma {:induction false} AppendersAccepted(v: Node, k: nat) returns (order: seq<nat>)
    requires k <= Size(v) && ReadAppenders(v, k).Some?
    ensures forall i :: i in order <==> 0 <= i < k && !LeftOut(Child(v, i))
    ensures forall i, j :: 0 <= i < j < |order| ==> order[i] < order[j]
    ensures |ReadAppenders(v, k).value| == |order|
    ensures forall j :: 0 <= j < |order| ==>
              order[j] < Size(v) && IsDefinitionOf(ReadAppenders(v, k).value[j], Child(v, order[j]))
  {
    hide Bad, LeftOut, IsDefinitionOf, ReadAppender, Child;
    order := [];
    if k > 0 {
      AppendersStep(v, k);
      order := AppendersAccepted(v, k - 1);
      AppenderExactly(Child(v, k - 1));
      hide ReadAppenders;
      if !LeftOut(Child(v, k - 1)) {
        order := order + [k - 1];
      }
    }
  }

  /** What an accepted definition is, by the fields of its node. */
  lemma AcceptedFields(n: Node) returns (order: seq<nat>)
    requires ReadDefine(n).Some?
    ensures var d, v := ReadDefine(n).value, Field(n, "appenders");
            && HasText(Field(n, "name"), d.name)
            && d.level == Level.FromString(TextOr(Field(n, "level")))
            && d.formatter == TextOr(Field(n, "formatter"))
            && |d.appenders| == |order|
            && (v.Defined? ==> forall i :: i in order <==> 0 <= i < Size(v.node) && !LeftOut(Child(v.node, i)))
            && (!v.Defined? ==> order == [])
            && (forall i, j :: 0 <= i < j < |order| ==> order[i] < order[j])
            && forall j :: 0 <= j < |order| ==>
                 v.Defined? && order[j] < Size(v.node) && IsDefinitionOf(d.appenders[j], Child(v.node, order[j]))
  {
    order := [];
    var v := Field(n, "appenders");
    if v.Defined? {
      order := AppendersAccepted(v.node, Size(v.node));
      assert forall j :: 0 <= j < |order| ==> order[j] in order;
    }
    hide Field, LeftOut, IsDefinitionOf, ReadAppenders, Child, Size, Level.FromString;
  }

  /** The appenders of a list of nodes. */
  function ReadList(nodes: seq<Node>): Option<seq<LogAppenderDefine>> {
    ReadAppenders(Sequence(nodes), |nodes|)
  }

  lemma {:induction false} ReadPrefix(xs: seq<Node>, ys: seq<Node>, k: nat)
    requires k <= |xs|
    ensures ReadAppenders(Sequence(xs + ys), k) == ReadAppenders(Sequence(xs), k)
  {
    hide ReadAppender;
    if k > 0 {
      ReadPrefix(xs, ys, k - 1);
      assert (xs + ys)[k - 1] == xs[k - 1];
    }
  }

  lemma ReadListSnoc(xs: seq<Node>, y: Node)
    ensures ReadList([]) == Some([])
    ensures ReadList(xs + [y]) ==
            if ReadList(xs).None? || ReadAppender(y).AppenderThrows? then None
            else Some(ReadList(xs).value + if ReadAppender(y).Accepted? then [ReadAppender(y).a] else [])
  {
    ReadPrefix(xs, [y], |xs|);
    assert Child(Sequence(xs + [y]), |xs|) == y;
    AppendersStep(Sequence(xs + [y]), |xs| + 1);
    hide ReadAppender;
  }

  /** Appenders are read one by one. */
  lemma {:induction false} ReadListConcat(xs: seq<Node>, ys: seq<Node>)
    ensures ReadList(xs + ys) ==
            if ReadList(xs).None? || ReadList(ys).None? then None else Some(ReadList(xs).value + ReadList(ys).value)
  {
    hide ReadAppender;
    ReadListSnoc([], Null);
    if ys == [] {
      assert xs + ys == xs;
      assert ReadList(xs).Some? ==> ReadList(xs).value + [] == ReadList(xs).value;
    } else {
      var front, y := ys[..|ys| - 1], ys[|ys| - 1];
      ReadListConcat(xs, front);
      hide *;
      assert ys == front + [y] && xs + ys == xs + front + [y];
      ReadListSnoc(xs + front, y);
      ReadListSnoc(front, y);
      if ReadList(xs).Some? && ReadList(front).Some? {
        Associates(ReadList(xs).value, ReadList(front).value,
                   if ReadAppender(y).Accepted? then [ReadAppender(y).a] else []);
      }
    }
  }

  /** An appender that is left out might as well not be there. */
  lemma LeftOutIsNothing(xs: seq<Node>, a: Node, ys: seq<Node>)
    requires LeftOut(a)
    ensures ReadList(xs + [a] + ys) == ReadList(xs + ys)
  {
    AppenderExactly(a);
    hide ReadList, ReadAppender, LeftOut;
    ReadListSnoc(xs, a);
    assert ReadList(xs).Some? ==> ReadList(xs).value + [] == ReadList(xs).value;
    ReadListConcat(xs + [a], ys);
    ReadListConcat(xs, ys);
  }

  /** Two definitions that differ in an appender that is left out read the same. */
  lemma SkippingIsInvisible(n: Node, m: Node, xs: seq<Node>, a: Node, ys: seq<Node>)
    requires LeftOut(a)
    requires Field(n, "appenders") == Defined(Sequence(xs + [a] + ys))
    requires Field(m, "appenders") == Defined(Sequence(xs + ys))
    requires Field(n, "name") == Field(m, "name") && Field(n, "level") == Field(m, "level")
    requires Field(n, "formatter") == Field(m, "formatter")
    ensures ReadDefine(n) == ReadDefine(m)
  {
    LeftOutIsNothing(xs, a, ys);
    hide Field, LeftOut, ReadAppenders, Level.FromString;
  }

  // ---------------------------------------------------------------------
  // Writing

  /** The value of an optional field: absent, or a text. */
  function TextIf(present: bool, text: string): Access {
    if present then Defined(Scalar(text)) else Undefined
  }

  function Count(a: bool, b: bool, c: bool, d: bool): nat {
    (if a then 1 else 0) + (if b then 1 else 0) + (if c then 1 else 0) + if d then 1 else 0
  }

  lemma GetEntry(key: string, text: Option<string>, k: string)
    ensures Get(Entry(key, text), k) == if text.Some? && key == k then Some(Scalar(text.value)) else None
    ensures |Entry(key, text)| == if text.Some? then 1 else 0
  {}

  /** The value of a field in a node that is assigned four entries, one after another. */
  lemma FieldAmongFour(
    a: seq<KeyValue>, b: seq<KeyValue>, c: seq<KeyValue>, d: seq<KeyValue>, key: string)
    ensures Field(MapOf(a + b + c + d), key) ==
            if Get(a, key).Some? then Defined(Get(a, key).value)
            else if Get(b, key).Some? then Defined(Get(b, key).value)
            else if Get(c, key).Some? then Defined(Get(c, key).value)
            else if Get(d, key).Some? then Defined(Get(d, key).value)
            else Undefined
    ensures Size(MapOf(a + b + c + d)) == |a| + |b| + |c| + |d|
  {
    GetAmongFour(a, b, c, d, key);
    assert Get([], key) == None;
    hide Get;
    assert |a + b + c + d| == |a| + |b| + |c| + |d|;
  }

  /** What the node of an appender shows: just these fields, each once. */
  lemma AppenderNodeExactly(
    kind: Option<string>, file: Option<string>, level: Option<string>, formatter: Option<string>)
    ensures var n := AppenderNode(kind, file, level, formatter);
            && Field(n, "type") == (if kind.Some? then Defined(Scalar(kind.value)) else Undefined)
            && Field(n, "file") == (if file.Some? then Defined(Scalar(file.value)) else Undefined)
            && Field(n, "level") == (if level.Some? then Defined(Scalar(level.value)) else Undefined)
            && Field(n, "formatter") == (if formatter.Some? then Defined(Scalar(formatter.value)) else Undefined)
            && Size(n) == Count(kind.Some?, file.Some?, level.Some?, formatter.Some?)
  {
    var a, b, c, d := Entry("type", kind), Entry("file", file), Entry("level", level), Entry("formatter", formatter);
    AppenderKeys(kind, file, level, formatter, "type");
    AppenderKeys(kind, file, level, formatter, "file");
    AppenderKeys(kind, file, level, formatter, "level");
    AppenderKeys(kind, file, level, formatter, "formatter");
    hide Entry, MapOf, Get, Field, Size;
    FieldAmongFour(a, b, c, d, "type");
    FieldAmongFour(a, b, c, d, "file");
    FieldAmongFour(a, b, c, d, "level");
    FieldAmongFour(a, b, c, d, "formatter");
  }

  lemma AppenderKeys(
    kind: Option<string>, file: Option<string>, level: Option<string>, formatter: Option<string>, key: string)
    ensures Get(Entry("type", kind), key) == if kind.Some? && key == "type" then Some(Scalar(kind.value)) else None
    ensures Get(Entry("file", file), key) == if file.Some? && key == "file" then Some(Scalar(file.value)) else None
    ensures Get(Entry("level", level), key) == if level.Some? && key == "level" then Some(Scalar(level.value)) else None
    ensures Get(Entry("formatter", formatter), key) ==
            if formatter.Some? && key == "formatter" then Some(Scalar(formatter.value)) else None
    ensures |Entry("type", kind)| == (if kind.Some? then 1 else 0)
    ensures |Entry("file", file)| == (if file.Some? then 1 else 0)
    ensures |Entry("level", level)| == (if level.Some? then 1 else 0)
    ensures |Entry("formatter", formatter)| == if formatter.Some? then 1 else 0
  {
    hide Entry, Get;
    GetEntry("type", kind, key);
    GetEntry("file", file, key);
    GetEntry("level", level, key);
    GetEntry("formatter", formatter, key);
  }

  /**
   The written form of an appender: its type by its kind, the file of a file
   appender, its level unless it is UNKNOW, and its formatter unless it is empty.
   */
  lemma WrittenAppender(a: LogAppenderDefine)
    ensures var n := WriteAppender(a);
            && Field(n, "type") == (if a.kind == 1 then Defined(Scalar("FileLogAppender"))
                                    else TextIf(a.kind == 2, "StdoutLogAppender"))
            && Field(n, "file") == TextIf(a.kind == 1, a.file)
            && Field(n, "level") == TextIf(a.level != Unknow, LEVEL_NAMES[Position(a.level)])
            && Field(n, "formatter") == TextIf(a.formatter != "", a.formatter)
            && Size(n) == Count(a.kind == 1 || a.kind == 2, a.kind == 1, a.level != Unknow, a.formatter != "")
  {
    NamesExactly(Position(a.level));
    AppenderNodeExactly(
      if a.kind == 1 then Some("FileLogAppender") else if a.kind == 2 then Some("StdoutLogAppender") else None,
      if a.kind == 1 then Some(a.file) else None, LevelText(a.level), NonEmpty(a.formatter));
    hide AppenderNode, Field, Size;
  }

  lemma DefineNodeExactly(name: string, level: Option<string>, formatter: Option<string>, nodes: seq<Node>)
    ensures var n := DefineNode(name, level, formatter, nodes);
            && Field(n, "name") == Defined(Scalar(name))
            && Field(n, "level") == (if level.Some? then Defined(Scalar(level.value)) else Undefined)
            && Field(n, "formatter") == (if formatter.Some? then Defined(Scalar(formatter.value)) else Undefined)
            && Field(n, "appenders") == (if nodes == [] then Undefined else Defined(Sequence(nodes)))
            && Size(n) == Count(true, level.Some?, formatter.Some?, nodes != [])
  {
    var a, b, c := Entry("name", Some(name)), Entry("level", level), Entry("formatter", formatter);
    var d := if nodes == [] then [] else [KeyValue("appenders", Sequence(nodes))];
    DefineKeys(name, level, formatter, nodes, "name");
    DefineKeys(name, level, formatter, nodes, "level");
    DefineKeys(name, level, formatter, nodes, "formatter");
    DefineKeys(name, level, formatter, nodes, "appenders");
    hide Entry, MapOf, Get, Field, Size;
    FieldAmongFour(a, b, c, d, "name");
    FieldAmongFour(a, b, c, d, "level");
    FieldAmongFour(a, b, c, d, "formatter");
    FieldAmongFour(a, b, c, d, "appenders");
  }

  lemma DefineKeys(name: string, level: Option<string>, formatter: Option<string>, nodes: seq<Node>, key: string)
    ensures Get(Entry("name", Some(name)), key) == if key == "name" then Some(Scalar(name)) else None
    ensures Get(Entry("level", level), key) == if level.Some? && key == "level" then Some(Scalar(level.value)) else None
    ensures Get(Entry("formatter", formatter), key) ==
            if formatter.Some? && key == "formatter" then Some(Scalar(formatter.value)) else None
    ensures Get(if nodes == [] then [] else [KeyValue("appenders", Sequence(nodes))], key) ==
            if nodes != [] && key == "appenders" then Some(Sequence(nodes)) else None
    ensures |Entry("name", Some(name))| == 1 && |Entry("level", level)| == (if level.Some? then 1 else 0)
    ensures |Entry("formatter", formatter)| == if formatter.Some? then 1 else 0
  {
    GetEntry("name", Some(name), key);
    GetEntry("level", level, key);
    GetEntry("formatter", formatter, key);
    hide Entry;
  }

  /** The written form of a definition, field by field. */
  lemma WrittenDefine(d: LogDefine)
    ensures var n := WriteDefine(d);
            && Field(n, "name") == Defined(Scalar(d.name))
            && Field(n, "level") == TextIf(d.level != Unknow, LEVEL_NAMES[Position(d.level)])
            && Field(n, "formatter") == TextIf(d.formatter != "", d.formatter)
            && Field(n, "appenders") ==
               (if d.appenders == [] then Undefined else Defined(Sequence(WriteAppenders(d.appenders))))
            && Size(n) == Count(true, d.level != Unknow, d.formatter != "", d.appenders != [])
            && |WriteAppenders(d.appenders)| == |d.appenders|
            && forall i :: 0 <= i < |d.appenders| ==> WriteAppenders(d.appenders)[i] == WriteAppender(d.appenders[i])
  {
    NamesExactly(Position(d.level));
    DefineNodeExactly(d.name, LevelText(d.level), NonEmpty(d.formatter), WriteAppenders(d.appenders));
    hide DefineNode, Field, Size, WriteAppender;
  }

  /** The dump of an appender: its type, its file, and always its level; never a formatter. */
  lemma DumpedAppenderFields(a: AppenderState)
    ensures var n := DumpAppender(a);
            && Field(n, "type") == Defined(Scalar(if a.sink.File? then "FileLogAppender" else "StdoutLogAppender"))
            && Field(n, "file") == (if a.sink.File? then Defined(Scalar(a.sink.name)) else Undefined)
            && Field(n, "level") == Defined(Scalar(LEVEL_NAMES[Position(a.level)]))
            && Field(n, "formatter") == Undefined
            && Size(n) == Count(true, a.sink.File?, true, false)
  {
    NamesExactly(Position(a.level));
    AppenderNodeExactly(
      Some(if a.sink.File? then "FileLogAppender" else "StdoutLogAppender"),
      if a.sink.File? then Some(a.sink.name) else None, Some(a.level.ToString()), None);
    hide AppenderNode, Field, Size, Level.ToString;
  }

  /** The dump of a logger: name, level, pattern, and its appenders if it has any. */
  lemma DumpedLoggerFields(name: string, s: LoggerState)
    ensures var n := DumpLogger(name, s);
            && Field(n, "name") == Defined(Scalar(name))
            && Field(n, "level") == Defined(Scalar(LEVEL_NAMES[Position(s.level)]))
            && Field(n, "formatter") == Defined(Scalar(s.pattern))
            && Field(n, "appenders") ==
               (if s.appenders == [] then Undefined else Defined(Sequence(DumpAppenders(s.appenders))))
            && Size(n) == Count(true, true, true, s.appenders != [])
            && |DumpAppenders(s.appenders)| == |s.appenders|
            && forall i :: 0 <= i < |s.appenders| ==> DumpAppenders(s.appenders)[i] == DumpAppender(s.appenders[i])
  {
    NamesExactly(Position(s.level));
    DefineNodeExactly(name, Some(s.level.ToString()), Some(s.pattern), DumpAppenders(s.appenders));
    hide DefineNode, Field, Size, DumpAppender, Level.ToString;
  }

  // ---------------------------------------------------------------------
  // A configuration file

  const UNKNOWN_FILE := Map([KeyValue("type", Scalar("FdfggsileLogAppender")), KeyValue("file", Scalar("root.txt"))])
  const CONSOLE_NODE := Map([KeyValue("type", Scalar("StdoutLogAppender"))])
  const SYSTEM_FILE := Map([KeyValue("type", Scalar("FileLogAppender")), KeyValue("file", Scalar("system.txt"))])

  const ROOT_NODE := Map([KeyValue("name", Scalar("root")), KeyValue("level", Scalar("info")),
                          KeyValue("appenders", Sequence([UNKNOWN_FILE, CONSOLE_NODE]))])
  const SYSTEM_NODE := Map([KeyValue("name", Scalar("system")), KeyValue("level", Scalar("info")),
                            KeyValue("formatter", Scalar("%d%T%m")),
                            KeyValue("appenders", Sequence([SYSTEM_FILE, CONSOLE_NODE]))])

  const CONSOLE_READ := LogAppenderDefine(2, Unknow, "", "")
  const FILE_READ := LogAppenderDefine(1, Unknow, "", "system.txt")
  const ROOT_READ := LogDefine("root", Info, "", [CONSOLE_READ])
  const SYSTEM_READ := LogDefine("system", Info, "%d%T%m", [FILE_READ, CONSOLE_READ])
  const FILE_DEFINES: Defines := map["root" := ROOT_READ, "system" := SYSTEM_READ]

  lemma FileAppenders()
    ensures ReadAppender(UNKNOWN_FILE).Skipped?
    ensures ReadAppender(CONSOLE_NODE) == Accepted(CONSOLE_READ)
    ensures ReadAppender(SYSTEM_FILE) == Accepted(FILE_READ)
  {
    TypesDiffer();
    assert |"FdfggsileLogAppender"| == 20 && |"FileLogAppender"| == 15 && |"StdoutLogAppender"| == 17;
  }

  lemma FileLists()
    ensures ReadList([UNKNOWN_FILE, CONSOLE_NODE]) == Some([CONSOLE_READ])
    ensures ReadList([SYSTEM_FILE, CONSOLE_NODE]) == Some([FILE_READ, CONSOLE_READ])
  {
    FileAppenders();
    hide ReadAppender, ReadList;
    ReadTwo(UNKNOWN_FILE, CONSOLE_NODE);
    ReadTwo(SYSTEM_FILE, CONSOLE_NODE);
    assert [] + [CONSOLE_READ] == [CONSOLE_READ] && [FILE_READ] + [CONSOLE_READ] == [FILE_READ, CONSOLE_READ];
    hide UNKNOWN_FILE, CONSOLE_NODE, SYSTEM_FILE;
  }

  lemma ReadTwo(a: Node, b: Node)
    requires !ReadAppender(a).AppenderThrows? && !ReadAppender(b).AppenderThrows?
    ensures ReadList([a, b]) ==
            Some((if ReadAppender(a).Accepted? then [ReadAppender(a).a] else [])
                 + if ReadAppender(b).Accepted? then [ReadAppender(b).a] else [])
  {
    hide ReadAppender, ReadList;
    ReadListSnoc([], a);
    ReadListSnoc([a], b);
    assert [] + [a] == [a] && [a] + [b] == [a, b];
    var first := if ReadAppender(a).Accepted? then [ReadAppender(a).a] else [];
    assert [] + first == first;
  }

  lemma FileDefines()
    ensures ReadDefine(ROOT_NODE) == Some(ROOT_READ)
    ensures ReadDefine(SYSTEM_NODE) == Some(SYSTEM_READ)
  {
    FileLists();
    RootFields();
    SystemFields();
    ReadLevels("info");
    assert LEVELS[2] == Info && LOWER_NAMES[2] == "info";
    hide Field, ReadAppenders, ReadDefine, ReadList, ROOT_NODE, SYSTEM_NODE, Level.FromString, HasText;
    ReadFields(ROOT_NODE, "root", "info", "", [UNKNOWN_FILE, CONSOLE_NODE], [CONSOLE_READ]);
    ReadFields(SYSTEM_NODE, "system", "info", "%d%T%m", [SYSTEM_FILE, CONSOLE_NODE], [FILE_READ, CONSOLE_READ]);
  }

  /** What a node with given fields reads as. */
  lemma ReadFields(
    n: Node, name: string, level: string, formatter: string, nodes: seq<Node>, list: seq<LogAppenderDefine>)
    requires HasText(Field(n, "name"), name) && HasText(Field(n, "level"), level)
    requires if formatter == "" then Field(n, "formatter") == Undefined else HasText(Field(n, "formatter"), formatter)
    requires Field(n, "appenders") == Defined(Sequence(nodes)) && ReadList(nodes) == Some(list)
    ensures ReadDefine(n) == Some(LogDefine(name, Level.FromString(level), formatter, list))
  {
    hide Field, ReadAppenders, Level.FromString;
  }

  lemma RootFields()
    ensures HasText(Field(ROOT_NODE, "name"), "root") && HasText(Field(ROOT_NODE, "level"), "info")
    ensures Field(ROOT_NODE, "formatter") == Undefined
    ensures Field(ROOT_NODE, "appenders") == Defined(Sequence([UNKNOWN_FILE, CONSOLE_NODE]))
  {
    var nodes := [UNKNOWN_FILE, CONSOLE_NODE];
    DefineNodeExactly("root", Some("info"), None, nodes);
    hide Field, UNKNOWN_FILE, CONSOLE_NODE;
    assert DefineNode("root", Some("info"), None, nodes) == ROOT_NODE;
  }

  lemma SystemFields()
    ensures HasText(Field(SYSTEM_NODE, "name"), "system") && HasText(Field(SYSTEM_NODE, "level"), "info")
    ensures HasText(Field(SYSTEM_NODE, "formatter"), "%d%T%m")
    ensures Field(SYSTEM_NODE, "appenders") == Defined(Sequence([SYSTEM_FILE, CONSOLE_NODE]))
  {
    var nodes := [SYSTEM_FILE, CONSOLE_NODE];
    DefineNodeExactly("system", Some("info"), Some("%d%T%m"), nodes);
    hide Field, SYSTEM_FILE, CONSOLE_NODE;
    assert DefineNode("system", Some("info"), Some("%d%T%m"), nodes) == SYSTEM_NODE;
  }

  /** What a file with a misspelt appender type brings: both loggers, and just that appender is left out. */
  lemma FileReads()
    ensures ReadDefines(Sequence([ROOT_NODE, SYSTEM_NODE])) == Some(FILE_DEFINES)
  {
    FileDefines();
    var n := Sequence([ROOT_NODE, SYSTEM_NODE]);
    assert Size(n) == 2 && Child(n, 0) == ROOT_NODE && Child(n, 1) == SYSTEM_NODE;
    hide ReadDefine, Insert, ReadDefinesUpTo, Child, ROOT_NODE, SYSTEM_NODE;
    ReadDefinesNone(n);
    ReadDefinesNext(n, 0, map[]);
    FileInserts();
    ReadDefinesNext(n, 1, Insert(map[], ROOT_READ));
  }

  lemma FileInserts()
    ensures Insert(Insert(map[], ROOT_READ), SYSTEM_READ) == FILE_DEFINES
  {
    assert "root"[0] != "system"[0];
  }
}
