# Verification of the logging and configuration library

This project models the sylar logging and configuration library in Dafny and
proves what its parts promise together, from a YAML tree to formatted output:

- **Patterns.** `PatternGrammar.dfy` is the grammar of log patterns,
  `PatternLaws.dfy` its laws (printing, concatenation, cost), `LogFormat.dfy` the
  parser's loops, the format items and the renderer. `DefaultPattern.dfy` shows
  that the default pattern is not in error, `PatternEscape.dfy` what becomes of
  percent signs in a row, `PatternAlphabet.dfy` which characters belong to a name, and
  `LogRendering.dfy` what each format item and the default pattern are rendered to.
- **Loggers.** `Logger.dfy` and `LoggerManager.dfy` hold the appenders, loggers,
  the manager and the listener of the `logs` variable as objects that share
  formatters. `LogDefine.dfy` describes them by value, `LogHistory.dfy` describes
  whole runs of changes, `LogActivity.dfy` runs in which loggers are asked for and
  used in between, and `LogCodec.dfy` and `LogReload.dfy` the definition codec, the
  dump and the reload. `LogFields.dfy` says field by field what is read and written.
- **Configuration.** `ConfigPaths.dfy` flattens trees, `ConfigVar.dfy` holds a
  variable and its listeners, `ConfigStore.dfy` the registry and the load,
  and `Codecs.dfy` the container codecs. `Yaml.dfy` is the tree type.
- **Both together.** `ConfigLogs.dfy` shows that the `logs` variable, set directly
  or by loading trees, drives the loggers through the calls of its listener, and
  `ListenerCalls.dfy` what carrying out these calls does and writes.
  `LogSystem.dfy` puts the registry with all its variables, the listener and the
  manager together as objects, and `LogProgram.dfy` runs whole programs on them;
  `LogPrograms.Program` is the whole way.

## How the program is represented

- Every class of the program is a class here, with its mutable fields. A formatter
  is never changed once it is made, so its fields are constants. `State` and
  `States` give objects by value; an appender's own pattern is `None` in that
  value exactly when the appender holds the same formatter object as its logger.
- What a stream receives is returned: logging returns the list of writes, each
  with its stream (console or file) and text, in order.
- A `std::set` of definitions and a `std::map` are maps. Where the program visits
  one in the order of its keys and the result could depend on it (the callbacks of
  a variable), the model does so, too; elsewhere loops take the elements in any
  order and the theorems hold for every order.
- YAML text and YAML trees stand for each other: a codec works on a node. A
  scalar where text is wanted gives its text; anything else, null included, is a
  failed conversion. A value of None stands for a C++ exception. Where a load hands
  a variable the text of a scalar, which is then parsed once more
  (sylar/config.cc:52-54), the parser is a parameter, and any.
- A variable carries its converter and its equality as functions, and all
  variables of a registry share one value type with a type tag, of which
  definitions are one case. A variable records the calls it makes, in order;
  `LogSystem` carries out those of the logging listener when the operation on the
  variable is done.
- Characters are classified as in the C locale. An event carries the text of its
  time for each `strftime` format.

## Where the code differs from its comments

- `LogDefine::operator==` compares the left operand's appenders with themselves
  (sylar/log.cc:740). A change of appenders alone is therefore invisible: the
  logger keeps its old appenders. `LogHistory.InSyncExactly` gives the exact
  condition for the loggers to follow a change, `LogHistory.HiddenEditExample` a
  run where they do not.
- A logger keeps an earlier pattern when its new definition has no formatter, or one
  in error (sylar/log.cc:906-909). `LogHistory.LatestExactly` says when a logger is
  altogether what its definition alone would build, and
  `LogHistory.LeftoverPatternExample` is a run where it is not.
- Two percent signs are called an escape (sylar/log.cc:532), but the second one is
  looked at again: `PatternEscapes.PercentRun` shows that a run of them gives one
  literal sign fewer than it has, and that the last one starts a directive.
  `PatternEscapes.NeverEscapes` shows that the escape fails before every text,
  `PatternEscapes.EscapeFails` is an example, and `PatternEscapes.TextsExactly` shows
  that a pattern can stand for just the texts without percent signs.
- An unclosed brace group emits its error token before the literal that is still
  pending (sylar/log.cc:595-599), so two patterns that are fine on their own can
  change the order of their texts when they are joined. `PatternConcat.ConcatFails`
  and `LogItems.RenderConcatFails` are examples, `PatternConcat.TokensConcatExactly`
  and `LogItems.RenderPatternConcat` the exact conditions.
- The writer of an appender's definition shows its level, but the reader ignores it
  (sylar/log.cc:778-820). `LogCodec.LevelIsLost` is an example and
  `LogCodec.RetractionExactly` the exact condition.
- `%r` is documented as the elapsed time, but renders the message
  (sylar/log.cc:163-172); `LogItems.ElapsedExactly` says when that is the same, and
  `LogItems.ElapsedFails` is an event where it is not.
- Nothing ever sets the mark that an appender has its own formatter
  (sylar/log.h:357-360), so a dump never shows one. `LogReload.ReloadExactly` says
  what a reload leaves unchanged, and `LogReload.OwnPatternIsLost` is a logger whose
  appender loses its pattern.

## Model

| member | source | states |
|---|---|---|
| LogFormatting.ScanDirective | sylar/log.cc:537-582 | the inner loop of `init` recognises exactly the directive the grammar has at that percent sign, or that its group never closes; status 2 does not occur; the number of iterations |
| LogFormatting.ParsePattern | sylar/log.cc:514-614 | the nested index loops terminate on every pattern and yield exactly the tokens of the recursive grammar, in exactly `Cost` inner iterations; the `fmt_status == 2` branch is dead |
| PatternAlphabet.LettersExactly | sylar/log.cc:541-541 | the letters of a name are the 52 letters written out |
| PatternAlphabet.AfterLetter | sylar/log.cc:541-582 | for every character after a percent sign and a letter: the 52 letters and a closing brace go on with the name, an opening brace opens a group, a percent sign starts the next directive, and any other character is text |
| LogFormatting.BuildItems | sylar/log.cc:654-676 | each token becomes its item, and the formatter is in error exactly if some directive has an unknown name; unclosed groups do not count |
| LogFormatting.LogFormatter.constructor | sylar/log.cc:508-512 | a formatter holds the items of its pattern and whether it is in error |
| LogFormatting.LogFormatter.Format | sylar/log.cc:679-690 | the renderer's loop yields the rendering of the pattern's tokens |
| PatternGrammar.PatternAccounts | sylar/log.cc:521-614 | for every pattern, the length is the literals' length plus the directives' length plus the number of errors; directives are kept in order; the pieces spell the pattern |
| PatternGrammar.UnclosedSuffix | sylar/log.cc:543-610 | once one brace group is unclosed, every later directive that opens a group is unclosed, too |
| PatternPrinting.PrintParse | sylar/log.cc:521-614 | printing a canonical token list, without braces wherever they can be left out, and parsing it gives the list back |
| PatternPrinting.ParsePrintParse | sylar/log.cc:521-614 | the tokens of every pattern without unclosed groups are canonical and survive printing and parsing |
| PatternPrinting.CanonicalExactly | sylar/log.cc:521-614 | the canonical token lists are exactly those of patterns without unclosed groups |
| PatternConcat.ScanConcatExactly | sylar/log.cc:521-610 | scanning p + q is scanning p and then q if and only if q neither closes a group p leaves open nor extends p's last directive |
| PatternConcat.TokensConcatExactly | sylar/log.cc:521-614 | for every two patterns, the tokens of p + q are those of p and then of q with literals merged, if and only if the seam holds and no error token overtakes a literal |
| PatternConcat.ErrorOvertakesLiteral | sylar/log.cc:595-614 | the whole family of a literal before an unclosed group, where the error token comes first and the texts run together |
| PatternConcat.ConcatFails | sylar/log.cc:595-614 | the patterns "ab" and "%d{x" satisfy the seam condition, but their tokens do not simply follow each other |
| PatternEscapes.PercentRun | sylar/log.cc:528-535 | k percent signs before any text add k - 1 of them to the pending literal, and the last goes on as a single one before that text would |
| PatternEscapes.NeverEscapes | sylar/log.cc:528-535 | whatever is pending and whatever follows, two percent signs never give the tokens that one literal percent sign would |
| PatternEscapes.TrailingPercents | sylar/log.cc:528-535 | plain text that ends in k percent signs becomes a literal with k - 1 of them and a directive without a name |
| PatternEscapes.TrailingPercentIsError | sylar/log.cc:528-535 | every pattern that ends in a percent sign is in error, so no logger accepts it |
| PatternEscapes.EscapeFails | sylar/log.cc:528-535 | "100%%" is the literal "100%" and a directive without a name, and it is in error |
| PatternEscapes.TextsExactly | sylar/log.cc:528-535 | a pattern that stands for a given text and nothing else exists if and only if the text has no percent sign |
| PatternCost.ScanCost | sylar/log.cc:543-582 | inner-loop iterations are at most the length n if every group closes, and at most n(n-1)/2 always |
| LogItems.RenderPatternConcat | sylar/log.cc:679-690 | at a seam, rendering p + q is rendering p and then q if and only if q does not start with an error token or the literal that p ends in, if any, is a row of error texts |
| LogItems.RenderConcatFails | sylar/log.cc:595-614 | what "ab" and "%d{x" render to, joined and one after the other |
| LogRendering.FormatItems | sylar/log.cc:616-638 | the table of format items, letter by letter: message, level name, logger, thread, fiber, file, line, newline, tab, and the date in its default format |
| LogRendering.FormatGroups | sylar/log.cc:205-232 | the group of a date is its format, and the groups of all other items are ignored |
| LogRendering.UnknownNames | sylar/log.cc:663-668 | of all names made of letters just those of the table are known; any other makes the pattern one in error, and is shown as such |
| LogRendering.UnclosedIsNoError | sylar/log.cc:595-599 | an unclosed group is rendered as an error text, but does not put its pattern in error |
| LogRendering.DefaultText | sylar/log.cc:298-298 | the default pattern, for every event: time, level, thread, logger, file, line and message, with the brackets, tabs and spaces between them |
| LogItems.ElapsedExactly | sylar/log.cc:163-172 | `%r` renders the message, which is the elapsed time only where the two coincide |
| LogItems.ElapsedFails | sylar/log.cc:163-172 | the event with message "x" and no time elapsed, for which `%r` renders "x" and not "0" |
| LogItems.IsErrorConcat | sylar/log.cc:663-668 | at a seam, p + q is in error exactly if p or q is |
| PatternEscapes.ErrorNeedsSeam | sylar/log.cc:663-668 | "%" is in error, "%m" is not, and there is no seam between "%" and "m" |
| LogLevels.NameRoundTrip | sylar/log.cc:20-68 | reading the name of a level gives the level, UNKNOW included |
| LogLevels.RankOrder | sylar/log.h:98-106 | the filters compare levels by their order in the list UNKNOW, DEBUG, INFO, WARN, ERROR, FATAL |
| LogLevels.NamesExactly | sylar/log.cc:20-42 | the name of each level, written out |
| LogLevels.ReadLevels | sylar/log.cc:46-68 | which texts are read as each level, in upper and in lower case; any other is UNKNOW |
| LogDefines.LevelFilters | sylar/log.cc:356-374 | an event at position i of the list of levels, on a logger at position j with one appender at position k, is written if and only if i is neither below j nor below k |
| LogDefines.EmitExactly | sylar/log.cc:356-374 | the appenders that write are those whose level the event reaches, each once, in the logger's order |
| DefaultPattern.DefaultIsEffective | sylar/log.cc:298-298 | the default pattern has no unknown directive |
| Loggers.LogAppender.Log | sylar/log.cc:409-440 | an appender writes if the level reaches its own; a console appender without a formatter makes a default one first; nothing else of it changes |
| Loggers.Logger.SetFormatterObject | sylar/log.cc:331-343 | the logger's formatter changes, and that of every appender not marked as having its own |
| Loggers.Logger.SetFormatter | sylar/log.cc:345-354 | a pattern in error changes nothing; any other becomes the logger's and is shared by all its appenders |
| Loggers.Logger.AddAppender | sylar/log.cc:305-312 | an appender without a formatter gets the logger's, and goes to the end of the list |
| Loggers.Logger.Rebuild | sylar/log.cc:904-942 | the body of the listener's loop makes the logger what the definition says: level, effective formatter, and fresh appenders in order, each with a formatter, that share the logger's unless they have a valid one |
| LogDefines.AppliedWrites | sylar/log.cc:904-942 | a logger on which a definition took effect, whatever it was before, drops events below the definition's level and makes one write for each of its appenders whose level is reached, in order: to the file or the console, with the appender's formatter if it has one that is not in error, and with the logger's pattern otherwise |
| Loggers.Logger.Log | sylar/log.cc:356-374 | an event passes the logger's level and goes to its appenders in order, or to root once; all appenders keep their state |
| Loggers.Logger.ToYaml | sylar/log.cc:472-489 | the dump of a logger |
| LoggerManagers.LoggerManager.constructor | sylar/log.cc:692-701 | a new manager has just root, with two console appenders |
| LoggerManagers.LoggerManager.GetLogger | sylar/log.cc:703-715 | a logger is found or made, falls back on root, and no other logger changes |
| LoggerManagers.LoggerManager.Log | sylar/log.cc:356-374 | an event on a named logger writes what its state and root's say, and leaves the state of every logger as it is |
| LoggerManagers.LoggerManager.OnLogDefinesChanged | sylar/log.cc:880-956 | the listener reports on root, rebuilds exactly the new and changed names, retires exactly the removed ones, and leaves every other logger untouched; no logger object is replaced, so whoever holds a logger sees the change |
| LoggerManagers.LoggerManager.AppenderFormatted | sylar/log.cc:296-312 | in every state of a manager, only root's first appender may lack a formatter, and an appender without a pattern of its own holds its logger's formatter |
| LoggerManagers.LoggerManager.ToYaml | sylar/log.cc:962-973 | the dump lists every logger once |
| LogHistory.Incremental | sylar/log.cc:880-956 | for every run of changes and every name: level and appenders are those of the definition at the last index where the name was changed; if it was dropped there, level 0 and no appenders; without such an index the logger is as made; the pattern is that of the last index with a change to an effective formatter |
| LogHistory.FromScratchExactly | sylar/log.cc:904-942 | the whole logger, pattern included, is what the definition that took effect last would build alone if and only if its formatter takes effect, or no change ever had an effective one, or the last that had gave the default pattern |
| LogHistory.LatestExactly | sylar/log.cc:880-956 | incremental equals from scratch for the latest definition if and only if no change of appenders went unseen and no earlier pattern is left over |
| LogHistory.LeftoverPatternExample | sylar/log.cc:906-909 | a run of two values after which a logger still has the pattern of the first |
| LogHistory.InSyncExactly | sylar/log.cc:738-741 | a change keeps all loggers in step with the new value if and only if no definition differs from the old one in what its appenders build and in nothing else that `operator==` sees |
| LogHistory.RunMatchesExactly | sylar/log.cc:880-956 | after any run, a logger has level and appenders of its latest definition if and only if the definition at the last change of the name builds the same appenders |
| LogHistory.RunInSync | sylar/log.cc:880-956 | in a run without such changes the variable and all loggers follow every value |
| LogHistory.HiddenEditExample | sylar/log.cc:738-741 | a run of two values after which a logger lacks the appender its current definition names |
| LogHistory.DeliveryIsConfigured | sylar/log.cc:356-374 | after any run, an event on any name writes what the values alone say: level and appenders of the last change, its pattern, and root in place of a logger without appenders, retired or never defined |
| LogActivity.AskingIsInvisible | sylar/log.cc:703-715 | in every run in which a program also asks for loggers and logs between changes, the variable and every logger, made or yet to be made, are as after the changes alone; and there are just the loggers of the changes and those asked for |
| LogActivity.DeliveryAnyTime | sylar/log.cc:356-374 | after any such run, an event on any name writes what the values alone say |
| LogReload.RunFormatted | sylar/log.cc:904-942 | after any run no logger and no appender has an empty pattern or one in error |
| LogReload.DumpReload | sylar/log.cc:962-973 | the dump of any state that changes, requests for loggers and logging lead to, read back and set on a new manager, reproduces names, levels, patterns and ordered sinks, with appender levels UNKNOW and appender patterns replaced by the logger's |
| LogReload.ReloadExactly | sylar/log.cc:442-489 | a reload leaves a logger unchanged exactly if its appenders have level UNKNOW and no pattern of their own; a second reload changes nothing |
| LogReload.FirstDump | sylar/log.cc:692-701 | the dump of a new manager, field by field |
| LogReload.OwnPatternIsLost | sylar/log.h:357-360 | a logger, as its definition builds it, whose appender has a pattern of its own and loses it in a reload |
| LogCodec.FromNode | sylar/log.cc:758-823 | the reader's loop yields the specified reading, exceptions and skipped appenders included |
| LogFields.AppenderExactly | sylar/log.cc:780-818 | for the node of an appender, by its fields: exactly when it makes the reader give up, exactly when it is left out, and its definition otherwise |
| LogFields.RejectedExactly | sylar/log.cc:758-823 | a definition is rejected if and only if its name is not a text, or a level or formatter that is there is not, or one of its appenders makes the reader give up |
| LogFields.AcceptedFields | sylar/log.cc:758-823 | what any other definition is, by the fields of its node, with all appenders that are not left out, in order |
| LogFields.SkippingIsInvisible | sylar/log.cc:784-814 | a definition with an appender that is left out reads as the one without it |
| LogFields.FileReads | bin/conf/log.yml:1-15 | what this file brings, where one appender's type is misspelt |
| Yaml.GetIsFirst | sylar/log.cc:762-772 | a field that a map writes more than once has the value written first |
| Yaml.AccessExactly | sylar/log.cc:775-784 | asking a scalar for a field fails, every other node either has the field or leaves it undefined, and a sequence gives its elements by position |
| LogCodec.FromNodes | sylar/config.h:125-139 | the set reader's loop yields the specified reading |
| LogCodec.ToNode | sylar/log.cc:830-870 | the writer's loop yields the specified node |
| LogFields.WrittenAppender | sylar/log.cc:840-866 | the fields that the written form of an appender has, under which conditions, with their texts, and no others |
| LogFields.WrittenDefine | sylar/log.cc:830-870 | the same for a definition |
| LogFields.DumpedAppenderFields | sylar/log.cc:442-470 | the fields of a dumped appender: always its level, never a formatter |
| LogFields.DumpedLoggerFields | sylar/log.cc:472-489 | the fields of a dumped logger |
| LogCodec.ReadWrittenDefine | sylar/log.cc:754-871 | for every definition, reading the written form gives it with appender levels erased and appenders of unknown kind dropped |
| LogCodec.RetractionExactly | sylar/log.cc:754-871 | read-after-write is the identity exactly on definitions all of whose appenders have level UNKNOW and are files, or the console without a file name; everything it gives is such a definition |
| LogCodec.LevelIsLost | sylar/log.cc:778-820 | a file appender with level INFO is read back with level UNKNOW |
| LogCodec.ReaderIsNormal | sylar/log.cc:754-824 | everything the reader can produce survives writing and reading |
| LogCodec.ReadWrittenDefines | sylar/config.h:143-160 | the same for sets, in whatever order they are written |
| LogCodec.SetRejectsExactly | sylar/config.h:125-139 | a set is rejected exactly if one of its elements is |
| LogCodec.SetKeepsFirst | sylar/config.h:125-139 | a set holds the first definition of each name |
| LogCodec.ReadDumpedLoggers | sylar/log.cc:962-973 | what the set reader makes of a dump |
| ConfigPaths.ListAllMember | sylar/config.cc:18-34 | the recursion appends exactly the flattened tree to the caller's list |
| ConfigPaths.FlattenExactly | sylar/config.cc:18-34 | the list is the preorder of just those nodes all of whose keys use the allowed alphabet, under their dotted names |
| ConfigPaths.UncleanTree | sylar/config.cc:20-24 | an invalid key removes its whole subtree |
| ConfigPaths.LowerIsIdentity | sylar/config.cc:48-48 | lower-casing an allowed name changes nothing |
| ConfigPaths.AllowedExactly | sylar/config.cc:20-20 | the alphabet of names, written out: lower-case letters, digits, dot and underscore |
| ConfigPaths.LowerLetters | sylar/config.h:301-301 | lower-casing takes each of the 26 upper-case letters to its lower-case one and leaves every other character |
| ConfigPaths.SmallTree | sylar/config.cc:18-34 | a tree of two levels, listed: parents before children, siblings in order, keys joined by a dot |
| ConfigPaths.FlattenDistinct | sylar/config.cc:18-34 | with keys that are not empty, have no dot and differ from their siblings, no name is listed twice |
| ConfigVars.AscendingIs | sylar/config.h:369-372 | callbacks are called in strictly ascending order of their keys, and each is |
| ConfigVars.NotifyExactly | sylar/config.h:369-372 | the calls of one change: every registered callback once, in ascending order of the keys, with the old and the new value |
| ConfigVars.ConfigVar.SetValue | sylar/config.h:363-374 | an equal value is ignored; otherwise every callback is told the old and the new value, in order, before the value changes |
| ConfigVars.ConfigVar.FromString | sylar/config.h:346-359 | a failed conversion changes nothing and returns false |
| ConfigVars.ConfigVar.AddListener | sylar/config.h:378-381 | a listener is registered under its key |
| ConfigVars.ConfigVar.DelListener | sylar/config.h:383-387 | a listener is removed |
| ConfigVars.ConfigVar.CleanListener | sylar/config.h:395-398 | all listeners are removed |
| ConfigVars.ListenerChain | sylar/config.h:346-387 | over every run of operations, the changes a registered listener sees link end to end from the value at registration to the current one, and none is from a value to an equal one |
| ConfigStore.Config.LookupFinds | sylar/config.h:411-422 | a lookup gives the registered variable exactly if the name is registered with the type asked for, and one without a type exactly if it is registered at all |
| ConfigStore.Config.LookupDefault | sylar/config.h:424-456 | the registry invariant is kept, no bound name changes its object or type, and each outcome occurs exactly in its case |
| ConfigStore.RegistryExactly | sylar/config.h:424-456 | after any run of lookups and loads, exactly the allowed names that were looked up are bound, each for good to the type of its first lookup |
| ConfigStore.Config.LoadFromYaml | sylar/config.cc:36-64 | every variable ends as its own entries alone would leave it, and none is added or removed |
| ConfigStore.LastWriterExactly | sylar/config.cc:41-63 | the variable ends with the last value that converts, exactly unless that value counted as equal to the one before without being the same |
| ConfigStore.LastWriter | sylar/config.cc:41-63 | with a true equality, the last value that converts wins |
| ConfigStore.LoadNone | sylar/config.cc:41-63 | a variable that no entry converts for is left alone |
| ConfigStore.LoadIsOps | sylar/config.cc:36-64 | for one variable, a load is the run of `fromString` operations of its entries, so everything about runs of operations holds of loads |
| ConfigStore.SilentReload | sylar/config.cc:18-64 | loading the same tree again changes no variable and calls no listener |
| ConfigStore.NamesAreListable | sylar/config.h:445-450 | the names `Lookup` accepts are exactly those some tree can list |
| ConfigLogs.OpsDrive | sylar/config.h:346-387 | over every run of operations that leaves the logging listener registered, the `logs` variable ends where the run of the values passed to `setValue` ends, and replaying the changes the listener was told about takes the loggers there |
| ConfigLogs.TreesDecideOutput | sylar/config.cc:36-64 | for every sequence of trees loaded into a new variable with the listener among any others, the changes that the listener sees take new loggers to the run of all definitions in the trees, and an event then writes what those say |
| ConfigLogs.LoadBrings | sylar/config.cc:50-61 | what a tree brings whose `logs` is no map: the definitions in it, or, for a scalar, those in what its text stands for |
| ConfigLogs.HiddenEditDoesNotLoad | sylar/config.cc:36-64 | any list of nodes leaves the `logs` variable as it is and calls no listener if all definitions it brings equal the current ones but for appenders, and, where a listener is registered, only if |
| ConfigLogs.OtherEditsLoad | sylar/config.cc:36-64 | the variable ends with a value that counts as equal to the last one that converts, and with this very one exactly unless the value before it was taken for equal without being so |
| ConfigLogs.SettingsBuildable | sylar/log.cc:918-929 | every set of definitions that any list of nodes brings has only appenders that the listener can build |
| ConfigLogs.DroppedEditExample | sylar/log.cc:738-741 | a tree that gives a logger its first appender, and is dropped without a call of the listener |
| ListenerCalls.DrivenByLoad | sylar/config.cc:36-64 | carrying out the calls that a load records is a step of the run for each set of definitions it brings, in order, and writes the listener's report on root of each change |
| ListenerCalls.PlainLoad | sylar/config.h:346-374 | for the `logs` variable of a registry with values of any types, a load is the load of its definitions |
| LogSystems.LogSystem.SetValue | sylar/config.h:363-374 | setting the `logs` variable, with the work of its listener on all loggers, is one step of the run of changes, and writes its report |
| LogSystems.LogSystem.Load | sylar/config.cc:36-64 | loading a tree is a step for each set of definitions it brings, in order, and writes their reports; every other variable of the registry ends as its own entries leave it |
| LogSystems.LogSystem.Dispatch | sylar/config.h:369-372 | carrying out the recorded calls leaves the loggers where replaying the changes the listener was told about takes them, and writes one notice for each |
| LogSystems.LogSystem.Lookup | sylar/config.h:424-456 | looking up any variable leaves the `logs` variable and all loggers alone |
| LogPrograms.Do | sylar/log.cc:356-374 | one deed of a program writes what the values so far say, and the state goes on following the values |
| LogPrograms.Program | sylar/log.cc:356-374 | from YAML to output through all objects: whatever a program loads, sets, looks up, asks for and logs, in any order, everything its loggers write, in order, reports of changes included, is what the values alone say |
| LogPrograms.FirstOutput | sylar/log.cc:692-701 | the first event of a program that sets nothing writes the default line of root twice, on whatever name, unless its level is UNKNOW |
| LogPrograms.BystandersSilent | sylar/log.cc:703-715 | asking for loggers, looking up other variables and adding or removing other listeners changes nothing of that output |
| LogPrograms.DumpAndReload | sylar/log.cc:962-973 | dumping the loggers of a system in any state that follows a run of changes, and setting the dump in a new system, gives the reloaded loggers |
| Codecs.ReadDecimal | sylar/config.h:22-31 | exactly the integers of 32 bits are read back from their decimal spelling |
| Codecs.ReadIntExactly | sylar/config.h:22-31 | which texts are read as integers: an optional sign and digits, whose value from the left fits 32 bits, and which integer that is |
| Codecs.IntRange | sylar/config.h:22-31 | the decimal spelling of an integer reads back exactly if the integer lies between -2147483648 and 2147483647 |
| Codecs.DecimalShape | sylar/config.h:22-31 | decimal spellings have a minus sign or none, and no zero in front |
| Codecs.ListReads | sylar/config.h:35-117 | a vector or list reads if and only if all its elements do, and has them in order |
| Codecs.SetReads | sylar/config.h:121-200 | a set reads if and only if all its elements do, and holds just these, repeated or not |
| Codecs.MapReads | sylar/config.h:208-292 | when a map reads, and that each of its keys has the first of its values |
| Codecs.RepeatedElement | sylar/config.h:121-139 | [12, 12, 20] reads as the set of 12 and 20 |
| Codecs.WrittenShape | sylar/config.h:56-292 | a container is written as null exactly if it is empty |
| Codecs.ReadWritten | sylar/config.h:35-292 | for every nesting of vector, list, set, unordered_set, map and unordered_map over int, reading any written form of a value gives the value, empty containers written as null included |
| Codecs.Write | sylar/config.h:56-292 | the writers' loops yield a written form, whatever order the container is visited in |
| Codecs.FromNode | sylar/config.h:35-273 | the readers' loops yield the specified reading, exceptions included |

## Left out

- YAML text: parsing and emission by yaml-cpp, and with them containers of raw strings, whose text is read again as YAML.
- Streams: opening and reopening files, `std::cout`, and the order of writes by several threads.
- The clock: `time`, `localtime_r`, `strftime` and its 64-byte buffer; an event carries the text of its date for each format.
- Diagnostics that the library logs about itself, except the listener's report of a change.
- Singletons, static initialisation and the `SYLAR_LOG_*` macros; thread and utility wrappers.
- Conversion of floating-point numbers and of types defined by users of the library.
- Callbacks that throw, set the variable they listen to, or change its listeners while they are called.
- `delAppender`, `getListener` and the level shorthands `debug` to `fatal`, which add only easy members.
- Definitions with an appender kind other than file or console: the listener dereferences a null pointer for them, so its methods exclude them; the reader never makes one.
- Yaml.Child: does not model that yaml-cpp compares converted numbers when a map is asked for an index; only the key that is the decimal spelling of the index is found.
- LogPrograms.Program: does not have programs that change a logger directly by `setLevel`, `setFormatter`, `addAppender` or `cleanAppenders`, what these do to one logger being the contract of `Loggers.Logger`; and does not show the diagnostics that the library logs about itself.
- LogDefines.Logged: does not model that a `LogEvent` has a level and a logger of its own; the renderer uses those passed to it, as the format items do.
- ConfigPaths.Flatten: does not model keys that are not scalars, which yaml-cpp gives as empty strings.
