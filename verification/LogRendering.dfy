/** The table of format items, and the text that the default pattern stands for. */
module LogRendering {
  import opened Alphabets
  import opened Common
  import opened Decimals
  import opened DefaultPattern
  import opened LogDefines
  import opened LogItems
  import opened LogLevels
  import opened PatternAlphabet
  import opened PatternConcat
  import opened PatternEscapes
  import opened PatternGrammar
  import opened PatternPrinting

  /** The text of a pattern that is one directive. */
  lemma RenderBare(x: char, logger: string, level: Level, event: LogEvent)
    requires x in LETTERS
    ensures Tokens("%" + [x]) == [Directive([x], "")]
    ensures RenderPattern("%" + [x], logger, level, event) ==
            RenderItem(ItemOf(Directive([x], "")), logger, level, event)
  {
    LettersExactly(x);
    NameChars(x);
    NoTokens();
    hide Tokens, RenderItem, ItemOf;
    LoneDirective([x], "", []);
    assert "%" + [x] + "" == "%" + [x] && [Directive([x], "")] + [] == [Directive([x], "")];
    RenderOne(Directive([x], ""), logger, level, event);
  }

  lemma RenderOne(t: Token, logger: string, level: Level, event: LogEvent)
    ensures Render(ItemsOf([t]), logger, level, event) == RenderItem(ItemOf(t), logger, level, event)
  {
    hide RenderItem, ItemOf;
    var items := ItemsOf([t]);
    assert items == [ItemOf(t)] && items[1..] == [];
    assert Render(items, logger, level, event) == RenderItem(ItemOf(t), logger, level, event) + "";
  }

  /** The text of a pattern that is one directive with a group. */
  lemma RenderBraced(x: char, arg: string, logger: string, level: Level, event: LogEvent)
    requires x in LETTERS && '}' !in arg
    ensures RenderPattern("%" + [x] + "{" + arg + "}", logger, level, event) ==
            RenderItem(ItemOf(Directive([x], arg)), logger, level, event)
  {
    LettersExactly(x);
    NameChars(x);
    NoTokens();
    var s := "%" + [x] + "{" + arg + "}";
    assert s + "" == s;
    hide Scan, Assemble, RenderItem, ItemOf;
    BracedHead([x], arg, "");
    AssembleHead(s, "");
    TokensAre("");
    hide Tokens, Head, Rest;
    TokensAre(s);
    assert Flush("") + [Directive([x], arg)] + [] == [Directive([x], arg)];
    RenderOne(Directive([x], arg), logger, level, event);
  }

  /** The table of format items, letter by letter. */
  lemma FormatItems(logger: string, level: Level, event: LogEvent)
    ensures RenderPattern("%m", logger, level, event) == event.content
    ensures RenderPattern("%p", logger, level, event) == LEVEL_NAMES[Position(level)]
    ensures RenderPattern("%c", logger, level, event) == logger
    ensures RenderPattern("%t", logger, level, event) == Decimal(event.threadId)
    ensures RenderPattern("%F", logger, level, event) == Decimal(event.fiberId)
    ensures RenderPattern("%f", logger, level, event) == event.file
    ensures RenderPattern("%l", logger, level, event) == Decimal(event.line)
    ensures RenderPattern("%n", logger, level, event) == "\n"
    ensures RenderPattern("%T", logger, level, event) == "\t"
    ensures RenderPattern("%d", logger, level, event) == event.date("%Y-%m-%d %H:%M:%S")
  {
    Table(logger, level, event);
    KnownLetters();
    hide *;
    OneLetter('m', "%m", logger, level, event);
    OneLetter('p', "%p", logger, level, event);
    OneLetter('c', "%c", logger, level, event);
    OneLetter('t', "%t", logger, level, event);
    OneLetter('F', "%F", logger, level, event);
    OneLetter('f', "%f", logger, level, event);
    OneLetter('l', "%l", logger, level, event);
    OneLetter('n', "%n", logger, level, event);
    OneLetter('T', "%T", logger, level, event);
    OneLetter('d', "%d", logger, level, event);
  }

  /** The letters of the table. */
  const TABLE := "mpctFflnTdr"

  lemma KnownLetters()
    ensures forall x :: x in TABLE ==> x in LETTERS && Known([x])
    ensures TABLE == ['m', 'p', 'c', 't', 'F', 'f', 'l', 'n', 'T', 'd', 'r']
  {
    forall x | x in TABLE
      ensures x in LETTERS
    {
      LettersExactly(x);
    }
  }

  lemma OneLetter(x: char, pattern: string, logger: string, level: Level, event: LogEvent)
    requires x in LETTERS && Known([x]) && pattern == ['%', x]
    ensures RenderPattern(pattern, logger, level, event) == RenderItem(FieldItem(x, ""), logger, level, event)
  {
    RenderBare(x, logger, level, event);
    hide *;
    assert "%" + [x] == pattern;
    KnownItem(x, "");
  }

  lemma KnownItem(x: char, arg: string)
    requires Known([x])
    ensures ItemOf(Directive([x], arg)) == FieldItem(x, arg)
  {}

  lemma Table(logger: string, level: Level, event: LogEvent)
    ensures RenderItem(FieldItem('m', ""), logger, level, event) == event.content
    ensures RenderItem(FieldItem('p', ""), logger, level, event) == LEVEL_NAMES[Position(level)]
    ensures RenderItem(FieldItem('c', ""), logger, level, event) == logger
    ensures RenderItem(FieldItem('t', ""), logger, level, event) == Decimal(event.threadId)
    ensures RenderItem(FieldItem('F', ""), logger, level, event) == Decimal(event.fiberId)
    ensures RenderItem(FieldItem('f', ""), logger, level, event) == event.file
    ensures RenderItem(FieldItem('l', ""), logger, level, event) == Decimal(event.line)
    ensures RenderItem(FieldItem('n', ""), logger, level, event) == "\n"
    ensures RenderItem(FieldItem('T', ""), logger, level, event) == "\t"
    ensures RenderItem(FieldItem('d', ""), logger, level, event) == event.date("%Y-%m-%d %H:%M:%S")
  {
    NamesExactly(Position(level));
  }

  /** The group of a date is its format; the groups of other items are ignored. */
  lemma FormatGroups(x: char, arg: string, logger: string, level: Level, event: LogEvent)
    requires x in TABLE && '}' !in arg
    ensures RenderPattern("%" + [x] + "{" + arg + "}", logger, level, event) ==
            if x == 'd' && arg != "" then event.date(arg) else RenderPattern("%" + [x], logger, level, event)
  {
    KnownLetters();
    ArgIgnored(x, arg, logger, level, event);
    hide *;
    RenderBraced(x, arg, logger, level, event);
    RenderBare(x, logger, level, event);
    KnownItem(x, arg);
    KnownItem(x, "");
  }

  lemma ArgIgnored(x: char, arg: string, logger: string, level: Level, event: LogEvent)
    ensures RenderItem(FieldItem(x, arg), logger, level, event) ==
            if x == 'd' && arg != "" then event.date(arg) else RenderItem(FieldItem(x, ""), logger, level, event)
  {}

  /** Just the letters of the table are known: any other name is an error, and is shown as one. */
  lemma UnknownNames(name: string, logger: string, level: Level, event: LogEvent)
    requires name != "" && forall c :: c in name ==> c in LETTERS
    ensures IsError("%" + name) <==> !(|name| == 1 && name[0] in TABLE)
    ensures IsError("%" + name) ==>
              RenderPattern("%" + name, logger, level, event) == "<<error_format %" + name + ">>"
  {
    forall i | 0 <= i < |name| ensures IsNameChar(name[i]) {
      LettersExactly(name[i]);
      NameChars(name[i]);
    }
    NoTokens();
    KnownExactly(name);
    hide *;
    LoneDirective(name, "", []);
    assert "%" + name + "" == "%" + name && [Directive(name, "")] + [] == [Directive(name, "")];
    ErrorOfOne("%" + name, name);
    RenderOne(Directive(name, ""), logger, level, event);
    PatternIs("%" + name, logger, level, event);
    UnknownItem(name, logger, level, event);
  }

  lemma KnownExactly(name: string)
    ensures Known(name) <==> |name| == 1 && name[0] in TABLE
  {}

  lemma ErrorOfOne(pattern: string, name: string)
    requires Tokens(pattern) == [Directive(name, "")]
    ensures IsError(pattern) <==> !Known(name)
  {
    hide Tokens, Known;
    assert Directive(name, "") in Tokens(pattern);
  }

  lemma UnknownItem(name: string, logger: string, level: Level, event: LogEvent)
    ensures !Known(name) ==>
              RenderItem(ItemOf(Directive(name, "")), logger, level, event) == "<<error_format %" + name + ">>"
  {}

  /** An unclosed group is shown as an error, but does not make its pattern one. */
  lemma UnclosedIsNoError(name: string, tail: string, logger: string, level: Level, event: LogEvent)
    requires (forall i :: 0 <= i < |name| ==> IsNameChar(name[i])) && '}' !in tail && '%' !in tail
    ensures !IsError("%" + name + "{" + tail)
    ensures RenderPattern("%" + name + "{" + tail, logger, level, event) == "<<pattern_error>>" + (name + "{" + tail)
  {
    OvertakenSpelled();
    var s, text := "%" + name + "{" + tail, name + "{" + tail;
    hide *;
    LoneUnclosed(name, tail, "");
    TokensAre(s);
    assert "" + text == text;
    NoDirective(s, text);
    PatternIs(s, logger, level, event);
    RenderTokens([PatternError], [Literal(text)], logger, level, event);
    RenderError(logger, level, event);
    RenderLiteral(text, logger, level, event);
  }

  lemma NoDirective(pattern: string, text: string)
    requires Tokens(pattern) == [PatternError] + [Literal(text)]
    ensures !IsError(pattern)
  {
    hide Tokens;
  }

  /** One directive, plain text after it, and the rest of a pattern. */
  lemma RenderField(x: char, text: string, tail: string, logger: string, level: Level, event: LogEvent)
    requires x in TABLE && '%' !in text && (text != "" ==> text[0] !in LETTERS && text[0] !in "{}")
    requires tail == "" || (tail[0] == '%' && Head(tail).Span?)
    ensures var s := "%" + [x] + (text + tail);
            && s != "" && s[0] == '%' && Head(s).Span?
            && RenderPattern(s, logger, level, event) ==
               RenderPattern("%" + [x], logger, level, event) + text + RenderPattern(tail, logger, level, event)
  {
    KnownLetters();
    LettersExactly(x);
    NameChars(x);
    if text != "" {
      LettersExactly(text[0]);
      NameChars(text[0]);
    }
    SpellablePlain(text);
    NameChars('%');
    LetterIs('%');
    hide *;
    assert text + tail != "" ==> (text + tail)[0] == if text != "" then text[0] else tail[0];
    BareHead([x], text + tail);
    TokensOf(x, text, tail);
    RenderBare(x, logger, level, event);
    PatternIs("%" + [x], logger, level, event);
    PatternIs("%" + [x] + (text + tail), logger, level, event);
    PatternIs(tail, logger, level, event);
    RenderTokens([Directive([x], "")], Flush(text) + Tokens(tail), logger, level, event);
    RenderTokens(Flush(text), Tokens(tail), logger, level, event);
    RenderFlush(text, logger, level, event);
    Associates(RenderPattern("%" + [x], logger, level, event), text, RenderPattern(tail, logger, level, event));
  }

  lemma RenderFlush(text: string, logger: string, level: Level, event: LogEvent)
    ensures Render(ItemsOf(Flush(text)), logger, level, event) == text
  {
    RenderLiteral(text, logger, level, event);
    assert ItemsOf([]) == [];
    hide ItemsOf;
  }

  lemma TokensOf(x: char, text: string, tail: string)
    requires IsNameChar(x) && Spellable(text, false)
    requires text + tail != "" ==> !IsNameChar((text + tail)[0]) && (text + tail)[0] != '{'
    requires tail == "" || Head(tail).Span?
    ensures Tokens("%" + [x] + (text + tail)) == [Directive([x], "")] + (Flush(text) + Tokens(tail))
  {
    LoneTail(text, tail);
    NoTokens();
    hide *;
    LoneDirective([x], text + tail, if text + tail == "" then [] else Tokens(text + tail));
  }

  /** Plain text before a pattern that starts with a directive. */
  lemma LoneTail(text: string, tail: string)
    requires Spellable(text, false) && (tail == "" || Head(tail).Span?)
    ensures Tokens(text + tail) == Flush(text) + Tokens(tail)
  {
    hide Scan, Head, Rest, Spellable;
    PrintedLiteral(text, tail, false, "");
    assert "" + text == text;
    if tail == "" {
      ScanNothing(text);
      assert Flush(text) + [] == Flush(text);
    } else {
      AssembleHead(tail, text);
      AssembleHead(tail, "");
      hide Assemble;
      TokensAre(text + tail);
      TokensAre(tail);
      var d := [Directive(Head(tail).name, Head(tail).arg)];
      assert Flush("") + d == d;
      Associates(Flush(text), d, Assemble(Scan(Rest(tail)), ""));
    }
  }

  lemma ScanNothing(text: string)
    ensures Assemble(Scan(""), text) == Flush(text) && Tokens("") == []
  {}

  // ---------------------------------------------------------------------
  // The default pattern

  /** Plain text that cannot extend a directive. */
  predicate Plain(text: string) {
    '%' !in text && (text != "" ==> text[0] in " []:")
  }

  /** A pattern that is empty or starts with a directive. */
  predicate Directed(s: string) {
    s == "" || (s[0] == '%' && Head(s).Span?)
  }

  lemma PlainIs(text: string)
    requires Plain(text)
    ensures '%' !in text && (text != "" ==> text[0] !in LETTERS && text[0] !in "{}")
  {
    if text != "" {
      LettersExactly(text[0]);
    }
  }

  lemma RenderPiece(
    piece: string, x: char, text: string, tail: string, logger: string, level: Level, event: LogEvent)
    requires piece == "%" + [x] + text && x in TABLE && Plain(text) && Directed(tail)
    ensures Directed(piece + tail)
    ensures RenderPattern(piece + tail, logger, level, event) ==
            RenderPattern("%" + [x], logger, level, event) + text + RenderPattern(tail, logger, level, event)
  {
    PlainIs(text);
    hide TABLE, LETTERS, Head, RenderPattern;
    RenderField(x, text, tail, logger, level, event);
    Associates("%" + [x], text, tail);
  }

  lemma RenderDate(tail: string, logger: string, level: Level, event: LogEvent)
    requires Directed(tail)
    ensures RenderPattern("%d{%Y-%m-%d %H:%M:%S}" + tail, logger, level, event) ==
            event.date("%Y-%m-%d %H:%M:%S") + RenderPattern(tail, logger, level, event)
  {
    DateSpelled();
    LettersExactly('d');
    NameChars('d');
    KnownLetters();
    ArgIgnored('d', DEFAULT_DATE, logger, level, event);
    hide RenderItem, Tokens, Scan, Assemble, Head, Rest, ItemOf;
    BracedHead("d", DEFAULT_DATE, tail);
    var s := "%d{%Y-%m-%d %H:%M:%S}" + tail;
    hide RenderPattern;
    AssembleHead(s, "");
    TokensAre(s);
    TokensAre(tail);
    assert Flush("") + [Directive("d", DEFAULT_DATE)] == [Directive("d", DEFAULT_DATE)];
    PatternIs(s, logger, level, event);
    PatternIs(tail, logger, level, event);
    RenderTokens([Directive("d", DEFAULT_DATE)], Tokens(tail), logger, level, event);
    RenderOne(Directive("d", DEFAULT_DATE), logger, level, event);
    KnownItem('d', DEFAULT_DATE);
  }

  /** The line that the default pattern stands for. */
  function DefaultLine(logger: string, level: Level, event: LogEvent): string {
    event.date("%Y-%m-%d %H:%M:%S")
    + ("\t [" + (LEVEL_NAMES[Position(level)] + "]"
    + ("\t[" + (Decimal(event.threadId) + "]"
    + ("\t[" + (logger + "]"
    + ("\t " + (event.file + ":" + (Decimal(event.line)
    + ("\t " + (event.content + "  " + "\n")))))))))))
  }

  lemma MessageText(logger: string, level: Level, event: LogEvent)
    ensures var s := "%T " + ("%m  " + "%n");
            && Directed(s)
            && RenderPattern(s, logger, level, event) == "\t " + (event.content + "  " + "\n")
  {
    NewLineOnly(logger, level, event);
    FormatItems(logger, level, event);
    Spelled();
    hide *;
    RenderPiece("%m  ", 'm', "  ", "%n", logger, level, event);
    RenderPiece("%T ", 'T', " ", "%m  " + "%n", logger, level, event);
  }

  lemma NewLineOnly(logger: string, level: Level, event: LogEvent)
    ensures Directed("%n") && RenderPattern("%n", logger, level, event) == "\n"
  {
    FormatItems(logger, level, event);
    Spelled();
    NothingToRender(logger, level, event);
    hide RenderPattern, Head;
    RenderPiece("%n", 'n', "", "", logger, level, event);
    assert "%n" + "" == "%n";
  }

  lemma NothingToRender(logger: string, level: Level, event: LogEvent)
    ensures Directed("") && RenderPattern("", logger, level, event) == ""
  {
    NoTokens();
    hide Tokens;
    assert ItemsOf([]) == [];
  }

  /** The pieces of the default pattern. */
  lemma Spelled()
    ensures "%" + ['m'] == "%m" && "%" + ['T'] == "%T" && "%" + ['l'] == "%l" && "%" + ['f'] == "%f"
    ensures "%" + ['c'] == "%c" && "%" + ['t'] == "%t" && "%" + ['p'] == "%p" && "%" + ['n'] == "%n"
    ensures "%m" + "  " == "%m  " && "%T" + " " == "%T " && "%l" + "" == "%l" && "%f" + ":" == "%f:"
    ensures "%c" + "]" == "%c]" && "%t" + "]" == "%t]" && "%p" + "]" == "%p]" && "%n" + "" == "%n"
    ensures "%T" + "[" == "%T[" && "%T" + " [" == "%T ["
    ensures "\t" + " " == "\t " && "\t" + "[" == "\t[" && "\t" + " [" == "\t ["
    ensures 'm' in TABLE && 'T' in TABLE && 'l' in TABLE && 'f' in TABLE
    ensures 'c' in TABLE && 't' in TABLE && 'p' in TABLE && 'n' in TABLE
    ensures Plain("  ") && Plain(" ") && Plain("") && Plain(":") && Plain("]") && Plain("[") && Plain(" [")
  {}

  lemma PlaceText(tail: string, logger: string, level: Level, event: LogEvent)
    requires Directed(tail)
    ensures var s := "%T " + ("%f:" + ("%l" + tail));
            && Directed(s)
            && RenderPattern(s, logger, level, event) ==
               "\t " + (event.file + ":" + (Decimal(event.line) + RenderPattern(tail, logger, level, event)))
  {
    FormatItems(logger, level, event);
    Spelled();
    hide *;
    RenderPiece("%l", 'l', "", tail, logger, level, event);
    assert Decimal(event.line) + "" == Decimal(event.line);
    RenderPiece("%f:", 'f', ":", "%l" + tail, logger, level, event);
    RenderPiece("%T ", 'T', " ", "%f:" + ("%l" + tail), logger, level, event);
  }

  lemma BracketText(
    piece: string, x: char, field: string, tail: string, logger: string, level: Level, event: LogEvent)
    requires piece == "%" + [x] + "]" && x in TABLE && Directed(tail)
    requires RenderPattern("%" + [x], logger, level, event) == field
    ensures Directed("%T[" + (piece + tail)) && Directed("%T [" + (piece + tail))
    ensures RenderPattern("%T[" + (piece + tail), logger, level, event) ==
            "\t[" + (field + "]" + RenderPattern(tail, logger, level, event))
    ensures RenderPattern("%T [" + (piece + tail), logger, level, event) ==
            "\t [" + (field + "]" + RenderPattern(tail, logger, level, event))
  {
    FormatItems(logger, level, event);
    Spelled();
    hide *;
    RenderPiece(piece, x, "]", tail, logger, level, event);
    RenderPiece("%T[", 'T', "[", piece + tail, logger, level, event);
    RenderPiece("%T [", 'T', " [", piece + tail, logger, level, event);
  }

  lemma NamesText(tail: string, logger: string, level: Level, event: LogEvent)
    requires Directed(tail)
    ensures var s := "%T [" + ("%p]" + ("%T[" + ("%t]" + ("%T[" + ("%c]" + tail)))));
            && Directed(s)
            && RenderPattern(s, logger, level, event) ==
               "\t [" + (LEVEL_NAMES[Position(level)] + "]"
               + ("\t[" + (Decimal(event.threadId) + "]"
               + ("\t[" + (logger + "]" + RenderPattern(tail, logger, level, event))))))
  {
    FormatItems(logger, level, event);
    Spelled();
    var levelName := LEVEL_NAMES[Position(level)];
    hide *;
    BracketText("%c]", 'c', logger, tail, logger, level, event);
    BracketText("%t]", 't', Decimal(event.threadId), "%T[" + ("%c]" + tail), logger, level, event);
    BracketText("%p]", 'p', levelName, "%T[" + ("%t]" + ("%T[" + ("%c]" + tail))), logger, level, event);
  }

  /** The default pattern, for every event: time, level, thread, logger, place and message, in this order. */
  lemma DefaultText(logger: string, level: Level, event: LogEvent)
    ensures RenderPattern(DEFAULT_PATTERN, logger, level, event) == DefaultLine(logger, level, event)
  {
    var message := "%T " + ("%m  " + "%n");
    var place := "%T " + ("%f:" + ("%l" + message));
    DefaultSpelled(message, place);
    MessageText(logger, level, event);
    hide RenderPattern, Directed;
    PlaceText(message, logger, level, event);
    NamesText(place, logger, level, event);
    RenderDate("%T [" + ("%p]" + ("%T[" + ("%t]" + ("%T[" + ("%c]" + place))))), logger, level, event);
  }

  lemma DefaultSpelled(message: string, place: string)
    requires message == "%T " + ("%m  " + "%n") && place == "%T " + ("%f:" + ("%l" + message))
    ensures DEFAULT_PATTERN ==
            "%d{%Y-%m-%d %H:%M:%S}" + ("%T [" + ("%p]" + ("%T[" + ("%t]" + ("%T[" + ("%c]" + place))))))
  {}
}
