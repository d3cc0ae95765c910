/** Reading and writing definitions of loggers. */
module LogCodec {
  import opened Common
  import opened LogDefines
  import opened LogItems
  import opened LogLevels
  import opened Yaml

  // ---------------------------------------------------------------------
  // Reading

  /** node[key].as<string>() if the value is defined; None is an exception. */
  datatype Text = Failed | Missing | Read(text: string)

  function TextOf(n: Node, key: string): Text {
    match Field(n, key)
    case Throws => Failed
    case Undefined => Missing
    case Defined(v) => if v.Scalar? then Read(v.text) else Failed
  }

  function OrElse(t: Text, default: string): string {
    if t.Read? then t.text else default
  }

  /** What the reader makes of one appender: an exception, nothing, or a definition. */
  datatype ReadAppenderResult = AppenderThrows | Skipped | Accepted(a: LogAppenderDefine)

  function ReadAppender(n: Node): ReadAppenderResult {
    match TextOf(n, "type")
    case Failed => AppenderThrows
    case Missing => Skipped
    case Read(kind) =>
      var formatter := TextOf(n, "formatter");
      if kind == "FileLogAppender" then
        var file := TextOf(n, "file");
        if file.Missing? then Skipped
        else if file.Failed? || formatter.Failed? then AppenderThrows
        else Accepted(LogAppenderDefine(1, Unknow, OrElse(formatter, ""), file.text))
      else if kind == "StdoutLogAppender" then
        if formatter.Failed? then AppenderThrows
        else Accepted(LogAppenderDefine(2, Unknow, OrElse(formatter, ""), ""))
      else Skipped
  }

  /** The appenders among the first k children of a node; None is an exception. */
  function ReadAppenders(n: Node, k: nat): Option<seq<LogAppenderDefine>>
    requires k <= Size(n)
  {
    if k == 0 then Some([])
    else
      match (ReadAppenders(n, k - 1), ReadAppender(Child(n, k - 1)))
      case (None, _) => None
      case (_, AppenderThrows) => None
      case (Some(list), Skipped) => Some(list)
      case (Some(list), Accepted(a)) => Some(list + [a])
  }

  /** A definition; None is an exception. */
  function ReadDefine(n: Node): Option<LogDefine> {
    var name, level, formatter := TextOf(n, "name"), TextOf(n, "level"), TextOf(n, "formatter");
    if !name.Read? || level.Failed? || formatter.Failed? then None
    else
      match Field(n, "appenders")
      case Defined(v) =>
        (match ReadAppenders(v, Size(v))
         case Some(list) => Some(LogDefine(name.text, Level.FromString(OrElse(level, "")), OrElse(formatter, ""), list))
         case None => None)
      case _ => Some(LogDefine(name.text, Level.FromString(OrElse(level, "")), OrElse(formatter, ""), []))
  }

  /** insert keeps the definition that is already there. */
  function Insert(ds: Defines, d: LogDefine): Defines {
    if d.name in ds then ds else ds[d.name := d]
  }

  /** The set of definitions among the first k children of a node; None is an exception. */
  function ReadDefinesUpTo(n: Node, k: nat): Option<Defines>
    requires k <= Size(n)
  {
    if k == 0 then Some(map[])
    else
      match (ReadDefinesUpTo(n, k - 1), ReadDefine(Child(n, k - 1)))
      case (Some(ds), Some(d)) => Some(Insert(ds, d))
      case _ => None
  }

  function ReadDefines(n: Node): Option<Defines> {
    ReadDefinesUpTo(n, Size(n))
  }

  /** One more appender. */
  lemma ReadAppendersNext(n: Node, k: nat, list: seq<LogAppenderDefine>)
    requires k < Size(n) && ReadAppenders(n, k) == Some(list)
    ensures var a := ReadAppender(Child(n, k));
            && (a.AppenderThrows? ==> ReadAppenders(n, k + 1) == None)
            && (a.Skipped? ==> ReadAppenders(n, k + 1) == Some(list))
            && (a.Accepted? ==> ReadAppenders(n, k + 1) == Some(list + [a.a]))
  {
    hide ReadAppender, Child;
  }

  lemma ReadAppendersNone(n: Node)
    ensures ReadAppenders(n, 0) == Some([])
  {}

  /** The reader of one definition, with its loop over the appenders. */
  method FromNode(n: Node) returns (r: Option<LogDefine>)
    ensures r == ReadDefine(n)
  {
    hide ReadAppender, ReadAppenders, Child, TextOf, Field, Level.FromString;
    var name := TextOf(n, "name");
    if !name.Read? {
      return None;
    }
    var level := TextOf(n, "level");
    var formatter := TextOf(n, "formatter");
    if level.Failed? || formatter.Failed? {
      return None;
    }
    var ld := LogDefine(name.text, Level.FromString(OrElse(level, "")), OrElse(formatter, ""), []);
    var appenders := Field(n, "appenders");
    if appenders.Defined? {
      ReadAppendersNone(appenders.node);
      for x := 0 to Size(appenders.node)
        invariant ReadAppenders(appenders.node, x) == Some(ld.appenders)
        invariant ld == LogDefine(name.text, Level.FromString(OrElse(level, "")), OrElse(formatter, ""), ld.appenders)
      {
        var lad := ReadAppender(Child(appenders.node, x));
        ReadAppendersNext(appenders.node, x, ld.appenders);
        if lad.AppenderThrows? {
          AppenderFailureSpreads(appenders.node, x + 1, Size(appenders.node));
          return None;
        }
        if lad.Skipped? {
          continue;
        }
        ld := ld.(appenders := ld.appenders + [lad.a]);
      }
    }
    r := Some(ld);
  }

  lemma AppenderFailureSpreads(n: Node, j: nat, k: nat)
    requires j <= k <= Size(n) && ReadAppenders(n, j) == None
    ensures ReadAppenders(n, k) == None
    decreases k
  {
    if j < k {
      AppenderFailureSpreads(n, j, k - 1);
    }
  }

  lemma ReadDefinesNone(n: Node)
    ensures ReadDefinesUpTo(n, 0) == Some(map[])
  {}

  /** One more definition. */
  lemma ReadDefinesNext(n: Node, k: nat, ds: Defines)
    requires k < Size(n) && ReadDefinesUpTo(n, k) == Some(ds)
    ensures var d := ReadDefine(Child(n, k));
            ReadDefinesUpTo(n, k + 1) == if d.Some? then Some(Insert(ds, d.value)) else None
  {
    hide ReadDefine, Child, Insert;
  }

  /** The reader of a set of definitions. */
  method FromNodes(n: Node) returns (r: Option<Defines>)
    ensures r == ReadDefines(n)
  {
    hide ReadDefine, ReadDefinesUpTo, Child, Insert;
    var ds: Defines := map[];
    ReadDefinesNone(n);
    for i := 0 to Size(n)
      invariant ReadDefinesUpTo(n, i) == Some(ds)
    {
      var d := FromNode(Child(n, i));
      ReadDefinesNext(n, i, ds);
      if d == None {
        DefineFailureSpreads(n, i + 1, Size(n));
        return None;
      }
      ds := Insert(ds, d.value);
    }
    r := Some(ds);
  }

  lemma DefineFailureSpreads(n: Node, j: nat, k: nat)
    requires j <= k <= Size(n) && ReadDefinesUpTo(n, j) == None
    ensures ReadDefinesUpTo(n, k) == None
    decreases k
  {
    if j < k {
      DefineFailureSpreads(n, j, k - 1);
    }
  }

  /** A set is rejected exactly when one of its elements is. */
  lemma {:induction false} SetRejectsExactly(n: Node, k: nat)
    requires k <= Size(n)
    ensures ReadDefinesUpTo(n, k).Some? <==> forall i :: 0 <= i < k ==> ReadDefine(Child(n, i)).Some?
  {
    hide ReadDefine, Child, Insert;
    if k > 0 {
      SetRejectsExactly(n, k - 1);
      assert ReadDefinesUpTo(n, k).Some? <==>
             ReadDefinesUpTo(n, k - 1).Some? && ReadDefine(Child(n, k - 1)).Some?;
      hide ReadDefinesUpTo;
    }
  }

  predicate IsFirstNamed(n: Node, i: nat, name: string, d: LogDefine)
    requires i < Size(n)
  {
    && ReadDefine(Child(n, i)) == Some(d) && d.name == name
    && forall j :: 0 <= j < i ==> NotNamed(n, j, name)
  }

  predicate NotNamed(n: Node, i: nat, name: string)
    requires i < Size(n)
  {
    ReadDefine(Child(n, i)).Some? && ReadDefine(Child(n, i)).value.name != name
  }

  lemma ReadDefinesStep(n: Node, k: nat)
    requires 0 < k <= Size(n) && ReadDefinesUpTo(n, k).Some?
    ensures ReadDefinesUpTo(n, k - 1).Some? && ReadDefine(Child(n, k - 1)).Some?
    ensures ReadDefinesUpTo(n, k).value == Insert(ReadDefinesUpTo(n, k - 1).value, ReadDefine(Child(n, k - 1)).value)
  {}

  lemma InsertAt(ds: Defines, d: LogDefine, name: string)
    ensures name in Insert(ds, d) <==> name in ds || name == d.name
    ensures name in Insert(ds, d) ==> Insert(ds, d)[name] == if name in ds then ds[name] else d
  {}

  lemma {:induction false} SetLacks(n: Node, k: nat, name: string)
    requires k <= Size(n) && ReadDefinesUpTo(n, k).Some? && name !in ReadDefinesUpTo(n, k).value
    ensures forall j :: 0 <= j < k ==> NotNamed(n, j, name)
  {
    hide ReadDefine, Child, ReadDefinesUpTo, Insert;
    if k > 0 {
      ReadDefinesStep(n, k);
      InsertAt(ReadDefinesUpTo(n, k - 1).value, ReadDefine(Child(n, k - 1)).value, name);
      SetLacks(n, k - 1, name);
    }
  }

  /** A set that is not rejected holds, for each of its names, the first definition that has it. */
  lemma {:induction false} SetKeepsFirst(n: Node, k: nat, name: string) returns (i: nat)
    requires k <= Size(n) && ReadDefinesUpTo(n, k).Some? && name in ReadDefinesUpTo(n, k).value
    ensures i < k && IsFirstNamed(n, i, name, ReadDefinesUpTo(n, k).value[name])
  {
    hide ReadDefine, Child, ReadDefinesUpTo, Insert;
    ReadDefinesNone(n);
    ReadDefinesStep(n, k);
    InsertAt(ReadDefinesUpTo(n, k - 1).value, ReadDefine(Child(n, k - 1)).value, name);
    if name in ReadDefinesUpTo(n, k - 1).value {
      i := SetKeepsFirst(n, k - 1, name);
    } else {
      SetLacks(n, k - 1, name);
      i := k - 1;
    }
  }

  // ---------------------------------------------------------------------
  // Writing

  function Entry(key: string, text: Option<string>): seq<KeyValue> {
    match text case Some(t) => [KeyValue(key, Scalar(t))] case None => []
  }

  function NonEmpty(text: string): Option<string> {
    if text == "" then None else Some(text)
  }

  function LevelText(level: Level): Option<string> {
    if level == Unknow then None else Some(level.ToString())
  }

  /** A node whose entries were assigned one by one; without any it stays null. */
  function MapOf(entries: seq<KeyValue>): Node {
    if entries == [] then Null else Map(entries)
  }

  function AppenderNode(
    kind: Option<string>, file: Option<string>, level: Option<string>, formatter: Option<string>): Node
  {
    MapOf(Entry("type", kind) + Entry("file", file) + Entry("level", level) + Entry("formatter", formatter))
  }

  function DefineNode(name: string, level: Option<string>, formatter: Option<string>, appenders: seq<Node>): Node {
    MapOf(Entry("name", Some(name)) + Entry("level", level) + Entry("formatter", formatter)
          + if appenders == [] then [] else [KeyValue("appenders", Sequence(appenders))])
  }

  function WriteAppender(a: LogAppenderDefine): Node {
    AppenderNode(
      if a.kind == 1 then Some("FileLogAppender") else if a.kind == 2 then Some("StdoutLogAppender") else None,
      if a.kind == 1 then Some(a.file) else None,
      LevelText(a.level), NonEmpty(a.formatter))
  }

  function WriteAppenders(appenders: seq<LogAppenderDefine>): seq<Node> {
    seq(|appenders|, i requires 0 <= i < |appenders| => WriteAppender(appenders[i]))
  }

  function WriteDefine(d: LogDefine): Node {
    DefineNode(d.name, LevelText(d.level), NonEmpty(d.formatter), WriteAppenders(d.appenders))
  }

  /** The writer of one definition, with its loop over the appenders. */
  method ToNode(d: LogDefine) returns (n: Node)
    ensures n == WriteDefine(d)
  {
    var entries := [KeyValue("name", Scalar(d.name))];
    if d.level != Unknow {
      entries := entries + [KeyValue("level", Scalar(d.level.ToString()))];
    }
    assert entries == Entry("name", Some(d.name)) + Entry("level", LevelText(d.level));
    if d.formatter != "" {
      entries := entries + [KeyValue("formatter", Scalar(d.formatter))];
    }
    ghost var head :=
      Entry("name", Some(d.name)) + Entry("level", LevelText(d.level)) + Entry("formatter", NonEmpty(d.formatter));
    assert entries == head;
    var appenders := AppendersToNodes(d.appenders);
    if appenders != [] {
      entries := entries + [KeyValue("appenders", Sequence(appenders))];
    }
    assert head + [] == head;
    n := Map(entries);
  }

  method AppendersToNodes(appenders: seq<LogAppenderDefine>) returns (nodes: seq<Node>)
    ensures nodes == WriteAppenders(appenders)
  {
    hide WriteAppender;
    nodes := [];
    for k := 0 to |appenders|
      invariant nodes == WriteAppenders(appenders[..k])
    {
      var na := AppenderToNode(appenders[k]);
      nodes := nodes + [na];
    }
    assert appenders[..|appenders|] == appenders;
  }

  method AppenderToNode(a: LogAppenderDefine) returns (n: Node)
    ensures n == WriteAppender(a)
  {
    var entries: seq<KeyValue> := [];
    if a.kind == 1 {
      entries := entries + [KeyValue("type", Scalar("FileLogAppender"))];
      entries := entries + [KeyValue("file", Scalar(a.file))];
    } else if a.kind == 2 {
      entries := entries + [KeyValue("type", Scalar("StdoutLogAppender"))];
    }
    if a.level != Unknow {
      entries := entries + [KeyValue("level", Scalar(a.level.ToString()))];
    }
    if a.formatter != "" {
      entries := entries + [KeyValue("formatter", Scalar(a.formatter))];
    }
    n := if entries == [] then Null else Map(entries);
  }

  // ---------------------------------------------------------------------
  // Reading what was written

  lemma AppenderFields(kind: Option<string>, file: Option<string>, level: Option<string>, formatter: Option<string>)
    ensures var n := AppenderNode(kind, file, level, formatter);
            && TextOf(n, "type") == (if kind.Some? then Read(kind.value) else Missing)
            && TextOf(n, "file") == (if file.Some? then Read(file.value) else Missing)
            && TextOf(n, "formatter") == (if formatter.Some? then Read(formatter.value) else Missing)
  {
    var a, b, c, d := Entry("type", kind), Entry("file", file), Entry("level", level), Entry("formatter", formatter);
    GetAmongFour(a, b, c, d, "type");
    GetAmongFour(a, b, c, d, "file");
    GetAmongFour(a, b, c, d, "formatter");
  }

  lemma DefineFields(name: string, level: Option<string>, formatter: Option<string>, appenders: seq<Node>)
    ensures var n := DefineNode(name, level, formatter, appenders);
            && TextOf(n, "name") == Read(name)
            && TextOf(n, "level") == (if level.Some? then Read(level.value) else Missing)
            && TextOf(n, "formatter") == (if formatter.Some? then Read(formatter.value) else Missing)
            && Field(n, "appenders") == if appenders == [] then Undefined else Defined(Sequence(appenders))
  {
    var a, b, c := Entry("name", Some(name)), Entry("level", level), Entry("formatter", formatter);
    var d := if appenders == [] then [] else [KeyValue("appenders", Sequence(appenders))];
    GetAmongFour(a, b, c, d, "name");
    GetAmongFour(a, b, c, d, "level");
    GetAmongFour(a, b, c, d, "formatter");
    GetAmongFour(a, b, c, d, "appenders");
  }

  /** What reading makes of a written appender: its level is lost, and so is an appender of unknown kind. */
  function Normal(a: LogAppenderDefine): seq<LogAppenderDefine> {
    if a.kind == 1 then [LogAppenderDefine(1, Unknow, a.formatter, a.file)]
    else if a.kind == 2 then [LogAppenderDefine(2, Unknow, a.formatter, "")]
    else []
  }

  function NormalAll(appenders: seq<LogAppenderDefine>): seq<LogAppenderDefine> {
    if appenders == [] then [] else NormalAll(appenders[..|appenders| - 1]) + Normal(appenders[|appenders| - 1])
  }

  function NormalDefine(d: LogDefine): LogDefine {
    d.(appenders := NormalAll(d.appenders))
  }

  lemma ReadWrittenAppender(a: LogAppenderDefine)
    ensures ReadAppender(WriteAppender(a)) == if Normal(a) == [] then Skipped else Accepted(Normal(a)[0])
  {
    AppenderFields(
      if a.kind == 1 then Some("FileLogAppender") else if a.kind == 2 then Some("StdoutLogAppender") else None,
      if a.kind == 1 then Some(a.file) else None,
      LevelText(a.level), NonEmpty(a.formatter));
    hide AppenderNode, TextOf;
    assert "FileLogAppender"[0] != "StdoutLogAppender"[0];
  }

  lemma {:induction false} ReadWrittenAppenders(appenders: seq<LogAppenderDefine>, k: nat)
    requires k <= |appenders|
    ensures ReadAppenders(Sequence(WriteAppenders(appenders)), k) == Some(NormalAll(appenders[..k]))
  {
    hide WriteAppender, ReadAppender;
    if k > 0 {
      ReadWrittenAppenders(appenders, k - 1);
      ReadWrittenAppender(appenders[k - 1]);
      var n := Sequence(WriteAppenders(appenders));
      assert Child(n, k - 1) == WriteAppender(appenders[k - 1]);
      assert appenders[..k][..k - 1] == appenders[..k - 1] && appenders[..k][k - 1] == appenders[k - 1];
      assert Normal(appenders[k - 1]) == [] || Normal(appenders[k - 1]) == [Normal(appenders[k - 1])[0]];
      assert NormalAll(appenders[..k - 1]) + [] == NormalAll(appenders[..k - 1]);
    }
  }

  /**
   The codec of definitions, for every definition: reading the written form
   gives the definition with its appenders' levels erased.
   */
  lemma ReadWrittenDefine(d: LogDefine)
    ensures ReadDefine(WriteDefine(d)) == Some(NormalDefine(d))
  {
    var nodes := WriteAppenders(d.appenders);
    hide *;
    DefineFields(d.name, LevelText(d.level), NonEmpty(d.formatter), nodes);
    ReadWrittenAppenders(d.appenders, |d.appenders|);
    assert d.appenders[..|d.appenders|] == d.appenders;
    WrittenParts(d);
    ReadDefineIs(WriteDefine(d), d, NormalAll(d.appenders));
    NormalDefineIs(d);
  }

  /** The parts of a written definition. */
  lemma WrittenParts(d: LogDefine)
    ensures WriteDefine(d) == DefineNode(d.name, LevelText(d.level), NonEmpty(d.formatter), WriteAppenders(d.appenders))
    ensures LevelText(d.level) == None || LevelText(d.level) == Some(d.level.ToString())
    ensures LevelText(d.level) == None ==> d.level == Unknow
    ensures NonEmpty(d.formatter) == if d.formatter == "" then None else Some(d.formatter)
    ensures WriteAppenders(d.appenders) == [] <==> d.appenders == []
    ensures Size(Sequence(WriteAppenders(d.appenders))) == |d.appenders|
    ensures NormalAll([]) == []
  {
    hide DefineNode, WriteAppender, Normal;
  }

  lemma NormalDefineIs(d: LogDefine)
    ensures NormalDefine(d) == LogDefine(d.name, d.level, d.formatter, NormalAll(d.appenders))
  {}

  /** What is read of a node that has the parts of a definition. */
  lemma ReadDefineIs(n: Node, d: LogDefine, list: seq<LogAppenderDefine>)
    requires TextOf(n, "name") == Read(d.name)
    requires TextOf(n, "level") == Read(d.level.ToString()) || (d.level == Unknow && TextOf(n, "level") == Missing)
    requires TextOf(n, "formatter") == (if d.formatter == "" then Missing else Read(d.formatter))
    requires Field(n, "appenders") != Throws && (Field(n, "appenders").Undefined? ==> list == [])
    requires Field(n, "appenders").Defined? ==>
               ReadAppenders(Field(n, "appenders").node, Size(Field(n, "appenders").node)) == Some(list)
    ensures ReadDefine(n) == Some(LogDefine(d.name, d.level, d.formatter, list))
  {
    NameRoundTrip(d.level);
    hide TextOf, Field, ReadAppenders, Size;
  }

  /** A file or the console, without a level; the console without a file name. */
  predicate IsNormalAppender(a: LogAppenderDefine) {
    a.level == Unknow && (a.kind == 1 || (a.kind == 2 && a.file == ""))
  }

  predicate AllNormal(appenders: seq<LogAppenderDefine>) {
    forall a :: a in appenders ==> IsNormalAppender(a)
  }

  predicate IsNormal(d: LogDefine) {
    AllNormal(d.appenders)
  }

  /** An appender is read back as it was exactly if it is normal, and so is what it is read back as. */
  lemma NormalExactly(a: LogAppenderDefine)
    ensures Normal(a) == [a] <==> IsNormalAppender(a)
    ensures AllNormal(Normal(a))
  {}

  lemma {:induction false} NormalAllIsNormal(appenders: seq<LogAppenderDefine>)
    ensures |NormalAll(appenders)| <= |appenders| && AllNormal(NormalAll(appenders))
  {
    hide IsNormalAppender;
    if appenders != [] {
      NormalAllIsNormal(appenders[..|appenders| - 1]);
      NormalExactly(appenders[|appenders| - 1]);
    }
  }

  lemma {:induction false} NormalAllExactly(appenders: seq<LogAppenderDefine>)
    ensures NormalAll(appenders) == appenders <==> AllNormal(appenders)
  {
    hide IsNormalAppender;
    if appenders != [] {
      var front, last := appenders[..|appenders| - 1], appenders[|appenders| - 1];
      assert appenders == front + [last];
      NormalAllExactly(front);
      NormalAllIsNormal(front);
      NormalAllIsNormal(appenders);
      NormalExactly(last);
      if AllNormal(appenders) {
        assert forall a :: a in front ==> a in appenders;
        assert last in appenders;
      }
    }
  }

  /** Read-after-write is the identity exactly on normal definitions, and everything it gives is normal. */
  lemma RetractionExactly(d: LogDefine)
    ensures ReadDefine(WriteDefine(d)) == Some(d) <==> IsNormal(d)
    ensures ReadDefine(WriteDefine(d)).Some? && IsNormal(ReadDefine(WriteDefine(d)).value)
  {
    ReadWrittenDefine(d);
    NormalAllExactly(d.appenders);
    NormalAllIsNormal(d.appenders);
  }

  /** A file appender with a level: it is read back without the level. */
  lemma LevelIsLost()
    ensures var a, b := LogAppenderDefine(1, Info, "", "x"), LogAppenderDefine(1, Unknow, "", "x");
            ReadDefine(WriteDefine(LogDefine("a", Info, "", [a]))) == Some(LogDefine("a", Info, "", [b]))
  {
    var a := LogAppenderDefine(1, Info, "", "x");
    ReadWrittenDefine(LogDefine("a", Info, "", [a]));
    assert [a][..0] == [] && NormalAll([]) + Normal(a) == Normal(a);
  }

  lemma {:induction false} ReadAppendersNormal(n: Node, k: nat)
    requires k <= Size(n) && ReadAppenders(n, k).Some?
    ensures AllNormal(ReadAppenders(n, k).value)
  {
    hide ReadAppender, IsNormalAppender, Child;
    if k > 0 {
      ReadAppendersNormal(n, k - 1);
      ReadAppenderNormal(Child(n, k - 1));
    }
  }

  lemma ReadAppenderNormal(n: Node)
    ensures ReadAppender(n).Accepted? ==> IsNormalAppender(ReadAppender(n).a)
  {
    hide TextOf;
  }

  /** The reader produces only normal definitions, so writing and reading them again changes nothing. */
  lemma ReaderIsNormal(n: Node)
    requires ReadDefine(n).Some?
    ensures IsNormal(ReadDefine(n).value) && ReadDefine(WriteDefine(ReadDefine(n).value)) == ReadDefine(n)
    ensures BuildableDefine(ReadDefine(n).value)
  {
    var d := ReadDefine(n).value;
    if Field(n, "appenders").Defined? {
      ReadAppendersNormal(Field(n, "appenders").node, Size(Field(n, "appenders").node));
    }
    assert IsNormal(d);
    hide ReadDefine, WriteDefine;
    RetractionExactly(d);
  }

  // ---------------------------------------------------------------------
  // Sets

  /** The order in which a container is visited. */
  ghost predicate Enumerates(names: seq<string>, keys: set<string>) {
    && (forall n :: n in names <==> n in keys)
    && forall i, j :: 0 <= i < j < |names| ==> names[i] != names[j]
  }

  /** The definitions of a sequence of names. */
  function WriteDefines(ds: Defines, names: seq<string>): Node
    requires forall n :: n in names ==> n in ds
  {
    if names == [] then Null
    else Sequence(seq(|names|, i requires 0 <= i < |names| => WriteDefine(ds[names[i]])))
  }

  /** The definitions of some names only. */
  function Part(ds: Defines, names: seq<string>): Defines
    requires forall n :: n in names ==> n in ds
  {
    map n | n in names :: ds[n]
  }

  lemma PartSnoc(ds: Defines, names: seq<string>, k: nat)
    requires 0 < k <= |names| && (forall n :: n in names ==> n in ds)
    requires forall i, j :: 0 <= i < j < |names| ==> names[i] != names[j]
    ensures Insert(Part(ds, names[..k - 1]), ds[names[k - 1]]) == Part(ds, names[..k])
  {
    assert names[..k] == names[..k - 1] + [names[k - 1]];
    assert names[k - 1] !in names[..k - 1];
  }

  /** What a sequence of nodes reads as, when its elements have distinct names. */
  lemma {:induction false} ReadDistinct(n: Node, names: seq<string>, ds: Defines, k: nat)
    requires k <= |names| && Size(n) == |names|
    requires forall i, j :: 0 <= i < j < |names| ==> names[i] != names[j]
    requires forall m :: m in names ==> m in ds
    requires forall i :: 0 <= i < |names| ==> ReadDefine(Child(n, i)) == Some(ds[names[i]])
    ensures ReadDefinesUpTo(n, k) == Some(Part(ds, names[..k]))
  {
    hide ReadDefine, Child, Part, Insert;
    if k > 0 {
      ReadDistinct(n, names, ds, k - 1);
      PartSnoc(ds, names, k);
    } else {
      EmptyPart(ds);
    }
  }

  lemma EmptyPart(ds: Defines)
    ensures Part(ds, []) == map[]
  {}

  lemma PartOfAll(ds: Defines, names: seq<string>)
    requires Enumerates(names, ds.Keys)
    ensures Part(ds, names) == ds
  {}

  function NormalDefines(ds: Defines): Defines {
    map m | m in ds :: NormalDefine(ds[m])
  }

  /** The codec of sets of definitions, in whatever order the set is visited. */
  lemma ReadWrittenDefines(ds: Defines, names: seq<string>)
    requires Enumerates(names, ds.Keys)
    ensures ReadDefines(WriteDefines(ds, names)) == Some(NormalDefines(ds))
  {
    var n, result := WriteDefines(ds, names), NormalDefines(ds);
    hide ReadDefine, WriteDefine, NormalDefine;
    forall i | 0 <= i < |names|
      ensures ReadDefine(Child(n, i)) == Some(result[names[i]])
    {
      ReadWrittenDefine(ds[names[i]]);
    }
    ReadDistinct(n, names, result, |names|);
    PartOfAll(result, names);
    assert names[..|names|] == names;
  }

  // ---------------------------------------------------------------------
  // Dumping loggers

  /** An appender as toYamlString shows it: never with a pattern, for no appender is marked as having its own. */
  function DumpAppender(a: AppenderState): Node {
    match a.sink
    case Stdout => AppenderNode(Some("StdoutLogAppender"), None, Some(a.level.ToString()), None)
    case File(file) => AppenderNode(Some("FileLogAppender"), Some(file), Some(a.level.ToString()), None)
  }

  function DumpAppenders(appenders: seq<AppenderState>): seq<Node> {
    seq(|appenders|, i requires 0 <= i < |appenders| => DumpAppender(appenders[i]))
  }

  function DumpLogger(name: string, s: LoggerState): Node {
    DefineNode(name, Some(s.level.ToString()), Some(s.pattern), DumpAppenders(s.appenders))
  }

  /** All loggers, in the order of names. */
  function DumpLoggers(ls: LoggerMap, names: seq<string>): Node
    requires forall n :: n in names ==> n in ls
  {
    if names == [] then Null
    else Sequence(seq(|names|, i requires 0 <= i < |names| => DumpLogger(names[i], ls[names[i]])))
  }

  /** The definition that reading a dumped logger gives. */
  function DumpedAppender(a: AppenderState): LogAppenderDefine {
    match a.sink
    case Stdout => LogAppenderDefine(2, Unknow, "", "")
    case File(file) => LogAppenderDefine(1, Unknow, "", file)
  }

  function DumpedAppenders(appenders: seq<AppenderState>): seq<LogAppenderDefine> {
    seq(|appenders|, i requires 0 <= i < |appenders| => DumpedAppender(appenders[i]))
  }

  function DumpedDefine(name: string, s: LoggerState): LogDefine {
    LogDefine(name, s.level, s.pattern, DumpedAppenders(s.appenders))
  }

  lemma ReadDumpedAppender(a: AppenderState)
    ensures ReadAppender(DumpAppender(a)) == Accepted(DumpedAppender(a))
  {
    match a.sink
    case Stdout => AppenderFields(Some("StdoutLogAppender"), None, Some(a.level.ToString()), None);
    case File(file) => AppenderFields(Some("FileLogAppender"), Some(file), Some(a.level.ToString()), None);
  }

  lemma {:induction false} ReadDumpedAppenders(appenders: seq<AppenderState>, k: nat)
    requires k <= |appenders|
    ensures ReadAppenders(Sequence(DumpAppenders(appenders)), k) == Some(DumpedAppenders(appenders[..k]))
  {
    hide DumpAppender, ReadAppender, DumpedAppender;
    if k > 0 {
      ReadDumpedAppenders(appenders, k - 1);
      ReadDumpedAppender(appenders[k - 1]);
      assert Child(Sequence(DumpAppenders(appenders)), k - 1) == DumpAppender(appenders[k - 1]);
      assert DumpedAppenders(appenders[..k]) ==
             DumpedAppenders(appenders[..k - 1]) + [DumpedAppender(appenders[k - 1])];
    } else {
      assert DumpedAppenders(appenders[..0]) == [];
    }
  }

  lemma ReadDumpedLogger(name: string, s: LoggerState)
    ensures ReadDefine(DumpLogger(name, s)) == Some(DumpedDefine(name, s))
  {
    var nodes := DumpAppenders(s.appenders);
    DefineFields(name, Some(s.level.ToString()), Some(s.pattern), nodes);
    ReadDumpedAppenders(s.appenders, |s.appenders|);
    assert s.appenders[..|s.appenders|] == s.appenders;
    NameRoundTrip(s.level);
    hide DefineNode, TextOf, Field, ReadAppender, DumpAppender, DumpedAppender;
  }

  function DumpedDefines(ls: LoggerMap): Defines {
    map m | m in ls :: DumpedDefine(m, ls[m])
  }

  /** Reading the dump of all loggers, in whatever order they are listed. */
  lemma ReadDumpedLoggers(ls: LoggerMap, names: seq<string>)
    requires Enumerates(names, ls.Keys)
    ensures ReadDefines(DumpLoggers(ls, names)) == Some(DumpedDefines(ls))
  {
    var n, result := DumpLoggers(ls, names), DumpedDefines(ls);
    hide ReadDefine, DumpLogger, DumpedDefine;
    forall i | 0 <= i < |names|
      ensures ReadDefine(Child(n, i)) == Some(result[names[i]])
    {
      ReadDumpedLogger(names[i], ls[names[i]]);
    }
    ReadDistinct(n, names, result, |names|);
    PartOfAll(result, names);
    assert names[..|names|] == names;
  }
}
