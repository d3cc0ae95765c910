/** Decimal spelling of integers. */
module Decimals {
  import opened Common

  function Digit(d: nat): (c: char)
    requires d < 10
    ensures '0' <= c <= '9'
  {
    '0' + d as char
  }

  function Digits(n: nat): (s: string)
    ensures s != "" && forall i :: 0 <= i < |s| ==> '0' <= s[i] <= '9'
  {
    (if n < 10 then "" else Digits(n / 10)) + [Digit(n % 10)]
  }

  function Decimal(n: int): (s: string)
    ensures s != ""
  {
    if n < 0 then "-" + Digits(-n) else Digits(n)
  }
}

/** What the tokens of a pattern render to. */
module LogItems {
  import opened Common
  import opened Decimals
  import opened LogLevels
  import opened PatternGrammar
  import opened PatternPrinting
  import opened PatternConcat

  /**
   A log event.  elapse is the number of milliseconds since the program started;
   date gives the event's time in a strftime format: the clock, the time zone and
   strftime itself are parameters.
   */
  datatype LogEvent = LogEvent(
    content: string, file: string, line: int, elapse: nat, threadId: nat, fiberId: nat, date: string -> string)

  datatype Item = StringItem(text: string) | FieldItem(letter: char, arg: string)

  const FIELDS := "mprctdflnTF"
  const DEFAULT_DATE := "%Y-%m-%d %H:%M:%S"
  const PATTERN_ERROR := "<<pattern_error>>"

  /** Names the table of format items knows. */
  predicate Known(name: string) {
    |name| == 1 && name[0] in FIELDS
  }

  function ItemOf(t: Token): Item {
    match t
    case Literal(text) => StringItem(text)
    case PatternError => StringItem(PATTERN_ERROR)
    case Directive(name, arg) =>
      if Known(name) then FieldItem(name[0], arg) else StringItem("<<error_format %" + name + ">>")
  }

  function ItemsOf(ts: seq<Token>): seq<Item> {
    seq(|ts|, i requires 0 <= i < |ts| => ItemOf(ts[i]))
  }

  predicate UnknownDirective(t: Token) {
    t.Directive? && !Known(t.name)
  }

  /** Some directive has an unknown name; unclosed groups do not count as errors. */
  predicate HasError(ts: seq<Token>) {
    exists t :: t in ts && UnknownDirective(t)
  }

  predicate IsError(pattern: string) {
    HasError(Tokens(pattern))
  }

  /** The text of one item; %r renders the message, like %m. */
  function RenderItem(item: Item, logger: string, level: Level, event: LogEvent): string {
    match item
    case StringItem(text) => text
    case FieldItem(c, arg) =>
      if c == 'm' || c == 'r' then event.content
      else if c == 'p' then level.ToString()
      else if c == 'c' then logger
      else if c == 't' then Decimal(event.threadId)
      else if c == 'F' then Decimal(event.fiberId)
      else if c == 'd' then event.date(if arg == "" then DEFAULT_DATE else arg)
      else if c == 'f' then event.file
      else if c == 'l' then Decimal(event.line)
      else if c == 'n' then "\n"
      else "\t"
  }

  function Render(items: seq<Item>, logger: string, level: Level, event: LogEvent): string {
    if items == [] then "" else RenderItem(items[0], logger, level, event) + Render(items[1..], logger, level, event)
  }

  function RenderPattern(pattern: string, logger: string, level: Level, event: LogEvent): string {
    Render(ItemsOf(Tokens(pattern)), logger, level, event)
  }

  lemma {:induction false} RenderConcat(a: seq<Item>, b: seq<Item>, logger: string, level: Level, event: LogEvent)
    ensures Render(a + b, logger, level, event) == Render(a, logger, level, event) + Render(b, logger, level, event)
  {
    hide RenderItem;
    if a == [] {
      assert a + b == b;
      NothingRendered(logger, level, event);
    } else {
      var first := RenderItem(a[0], logger, level, event);
      assert a + b != [] && (a + b)[0] == a[0] && (a + b)[1..] == a[1..] + b;
      RenderConcat(a[1..], b, logger, level, event);
      Associates(first, Render(a[1..], logger, level, event), Render(b, logger, level, event));
    }
  }

  lemma NothingRendered(logger: string, level: Level, event: LogEvent)
    ensures Render([], logger, level, event) == ""
  {}

  lemma ItemsConcat(ts: seq<Token>, us: seq<Token>)
    ensures ItemsOf(ts + us) == ItemsOf(ts) + ItemsOf(us)
  {}

  /** Merging two literals does not change what is rendered. */
  lemma RenderJoin(ts: seq<Token>, us: seq<Token>, logger: string, level: Level, event: LogEvent)
    ensures Render(ItemsOf(Join(ts, us)), logger, level, event) ==
            Render(ItemsOf(ts), logger, level, event) + Render(ItemsOf(us), logger, level, event)
  {
    hide ItemsOf, Render;
    if EndsInLiteral(ts) && us != [] && us[0].Literal? {
      var front, a, b, back := ts[..|ts| - 1], ts[|ts| - 1].text, us[0].text, us[1..];
      assert ts == front + [Literal(a)] && us == [Literal(b)] + back;
      RenderTokens(front, [Literal(a)], logger, level, event);
      RenderTokens([Literal(b)], back, logger, level, event);
      RenderTokens(front + [Literal(a + b)], back, logger, level, event);
      RenderTokens(front, [Literal(a + b)], logger, level, event);
      RenderLiteral(a, logger, level, event);
      RenderLiteral(b, logger, level, event);
      RenderLiteral(a + b, logger, level, event);
    } else {
      RenderTokens(ts, us, logger, level, event);
    }
  }

  lemma RenderTokens(ts: seq<Token>, us: seq<Token>, logger: string, level: Level, event: LogEvent)
    ensures Render(ItemsOf(ts + us), logger, level, event) ==
            Render(ItemsOf(ts), logger, level, event) + Render(ItemsOf(us), logger, level, event)
  {
    hide ItemsOf, Render;
    ItemsConcat(ts, us);
    RenderConcat(ItemsOf(ts), ItemsOf(us), logger, level, event);
  }

  lemma RenderLiteral(text: string, logger: string, level: Level, event: LogEvent)
    ensures Render(ItemsOf([Literal(text)]), logger, level, event) == text
  {
    assert ItemsOf([Literal(text)]) == [StringItem(text)];
  }

  // ---------------------------------------------------------------------
  // Errors that overtake a literal

  /** k pattern errors, as text. */
  function Errors(k: nat): string {
    if k == 0 then "" else PATTERN_ERROR + Errors(k - 1)
  }

  /** The number of pattern errors that a token list starts with. */
  function LeadingErrors(ts: seq<Token>): (k: nat)
    ensures k <= |ts|
  {
    if ts == [] || !ts[0].PatternError? then 0 else 1 + LeadingErrors(ts[1..])
  }

  /** The literal that a token list ends in. */
  function LastText(ts: seq<Token>): string {
    if EndsInLiteral(ts) then ts[|ts| - 1].text else ""
  }

  /** With a literal pending, the leading errors are rendered before it. */
  lemma {:induction false} RenderAttach(a: string, us: seq<Token>, logger: string, level: Level, event: LogEvent)
    ensures var k := LeadingErrors(us);
            Render(ItemsOf(Attach(a, us)), logger, level, event) ==
            Errors(k) + a + Render(ItemsOf(us[k..]), logger, level, event)
  {
    hide ItemsOf, Render, Attach, Errors;
    var k := LeadingErrors(us);
    if k > 0 {
      var vs := us[1..];
      RenderAttach(a, vs, logger, level, event);
      assert us == [PatternError] + vs && vs[k - 1..] == us[k..];
      RenderErrorFirst(a, vs, k, us[k..], logger, level, event);
    } else {
      RenderPending(a, us, logger, level, event);
      ErrorsNone();
      assert us[0..] == us && "" + a == a;
    }
  }

  lemma RenderErrorFirst(
    a: string, vs: seq<Token>, k: nat, rest: seq<Token>, logger: string, level: Level, event: LogEvent)
    requires k > 0
    requires Render(ItemsOf(Attach(a, vs)), logger, level, event) ==
             Errors(k - 1) + a + Render(ItemsOf(rest), logger, level, event)
    ensures Render(ItemsOf(Attach(a, [PatternError] + vs)), logger, level, event) ==
            Errors(k) + a + Render(ItemsOf(rest), logger, level, event)
  {
    hide *;
    AttachError(a, vs);
    RenderTokens([PatternError], Attach(a, vs), logger, level, event);
    RenderError(logger, level, event);
    ErrorsStep(k);
    Associates(PATTERN_ERROR, Errors(k - 1) + a, Render(ItemsOf(rest), logger, level, event));
    Associates(PATTERN_ERROR, Errors(k - 1), a);
  }

  lemma ErrorsStep(k: nat)
    requires k > 0
    ensures Errors(k) == PATTERN_ERROR + Errors(k - 1)
  {}

  lemma RenderError(logger: string, level: Level, event: LogEvent)
    ensures Render(ItemsOf([PatternError]), logger, level, event) == PATTERN_ERROR
  {
    assert ItemsOf([PatternError]) == [StringItem(PATTERN_ERROR)];
    assert PATTERN_ERROR + "" == PATTERN_ERROR;
  }

  lemma RenderPending(a: string, us: seq<Token>, logger: string, level: Level, event: LogEvent)
    requires us != [] ==> !us[0].PatternError?
    ensures Render(ItemsOf(Attach(a, us)), logger, level, event) == a + Render(ItemsOf(us), logger, level, event)
  {
    hide ItemsOf, Render;
    if a != "" {
      RenderLiteral(a, logger, level, event);
      RenderJoin([Literal(a)], us, logger, level, event);
      assert Attach(a, us) == Join([Literal(a)], us);
    }
  }

  /** Two orders of two texts between the same neighbours. */
  lemma Swapped(x: string, a: string, e: string, t: string)
    ensures x + (e + a + t) == x + a + (e + t) <==> a + e == e + a
  {
    Associates(x, a, e + t);
    Associates(a, e, t);
    if x + (e + a + t) == x + a + (e + t) {
      CancelsLeft(x, e + a + t, a + e + t);
      assert e + a == (e + a + t)[..|a| + |e|] && a + e == (a + e + t)[..|a| + |e|];
    }
  }

  /** At a seam, rendering distributes exactly if the literal before it and the errors after it commute. */
  lemma RenderAtSeam(p: string, q: string, logger: string, level: Level, event: LogEvent)
    requires SeamHolds(p, q)
    ensures var a, e := LastText(Tokens(p)), Errors(LeadingErrors(Tokens(q)));
            RenderPattern(p + q, logger, level, event) ==
            RenderPattern(p, logger, level, event) + RenderPattern(q, logger, level, event)
            <==> a + e == e + a
  {
    hide Tokens, SeamHolds, ItemsOf, Render, Attach, Errors, LeadingErrors;
    TokensConcat(p, q);
    var (ts, a) := Emitted(Scan(p), "");
    var us := Tokens(q);
    var k := LeadingErrors(us);
    RenderTokens(ts, Flush(a), logger, level, event);
    RenderTokens(ts, Attach(a, us), logger, level, event);
    RenderAttach(a, us, logger, level, event);
    RenderAttach("", us, logger, level, event);
    AttachNone(us);
    assert Errors(k) + "" == Errors(k);
    FlushedText(ts, a, logger, level, event);
    Swapped(Render(ItemsOf(ts), logger, level, event), a, Errors(k), Render(ItemsOf(us[k..]), logger, level, event));
  }

  lemma AttachNone(us: seq<Token>)
    ensures Attach("", us) == us
  {}

  lemma FlushedText(ts: seq<Token>, a: string, logger: string, level: Level, event: LogEvent)
    requires !EndsInLiteral(ts)
    ensures Render(ItemsOf(Flush(a)), logger, level, event) == a
    ensures LastText(ts + Flush(a)) == a
  {
    if a == "" {
      assert ts + Flush(a) == ts;
    } else {
      RenderLiteral(a, logger, level, event);
      assert (ts + [Literal(a)])[|ts|] == Literal(a);
    }
  }

  lemma {:induction false} ErrorsCommute(j: nat, k: nat)
    ensures Errors(j) + Errors(k) == Errors(k) + Errors(j) == Errors(j + k)
  {
    if j > 0 {
      ErrorsCommute(j - 1, k);
      ErrorsPower(k);
      hide Errors;
      ErrorsStep(j);
      ErrorsStep(j + k);
      Associates(PATTERN_ERROR, Errors(j - 1), Errors(k));
      Associates(PATTERN_ERROR, Errors(k), Errors(j - 1));
      Associates(Errors(k), PATTERN_ERROR, Errors(j - 1));
    } else {
      assert "" + Errors(k) == Errors(k) == Errors(k) + "";
    }
  }

  lemma {:induction false} ErrorsPower(k: nat)
    ensures PATTERN_ERROR + Errors(k) == Errors(k) + PATTERN_ERROR
  {
    ErrorsNone();
    hide *;
    if k > 0 {
      ErrorsPower(k - 1);
      ErrorsStep(k);
      Associates(PATTERN_ERROR, Errors(k - 1), PATTERN_ERROR);
    } else {
      assert "" + PATTERN_ERROR == PATTERN_ERROR == PATTERN_ERROR + "";
    }
  }

  /** A text commutes with pattern errors only if it is itself made of them. */
  lemma {:induction false} CommutingText(a: string, k: nat) returns (j: nat)
    requires k > 0 && a + Errors(k) == Errors(k) + a
    ensures a == Errors(j)
    decreases |a|
  {
    var e := Errors(k - 1);
    assert Errors(k) == PATTERN_ERROR + e;
    j := 0;
    if 0 < |a| < |PATTERN_ERROR| {
      NoBorder(a, e);
      assert false;
    } else if a != "" {
      var b := a[|PATTERN_ERROR|..];
      hide Errors;
      Associates(PATTERN_ERROR, e, a);
      assert a[..|PATTERN_ERROR|] == (a + Errors(k))[..|PATTERN_ERROR|] == PATTERN_ERROR;
      assert a == PATTERN_ERROR + b;
      Associates(PATTERN_ERROR, b, Errors(k));
      CancelsLeft(PATTERN_ERROR, b + Errors(k), e + a);
      ErrorsPower(k - 1);
      Associates(e, PATTERN_ERROR, b);
      j := CommutingText(b, k);
      j := j + 1;
      ErrorsStep(j);
    }
  }

  /** The error text is no prefix of itself shifted. */
  lemma NoBorder(a: string, e: string)
    requires 0 < |a| < |PATTERN_ERROR|
    ensures a + (PATTERN_ERROR + e) != PATTERN_ERROR + e + a
  {
    var d, s, t := |a|, a + (PATTERN_ERROR + e), PATTERN_ERROR + e + a;
    assert forall i :: 1 < i < |PATTERN_ERROR| ==> PATTERN_ERROR[i] != '<';
    assert s[d] == PATTERN_ERROR[0] && t[d] == PATTERN_ERROR[d];
    assert s[d + 1] == PATTERN_ERROR[1] && t[2] == PATTERN_ERROR[2];
  }

  /**
   Rendering p + q, at a seam: it is rendering p and then q exactly if q does not
   start with a pattern error, or the literal that p ends in, if any, is itself a
   row of error texts.
   */
  lemma RenderPatternConcat(p: string, q: string, logger: string, level: Level, event: LogEvent)
    requires SeamHolds(p, q)
    ensures RenderPattern(p + q, logger, level, event) ==
            RenderPattern(p, logger, level, event) + RenderPattern(q, logger, level, event)
            <==> LeadingErrors(Tokens(q)) == 0 || exists j :: LastText(Tokens(p)) == Errors(j)
  {
    hide SeamHolds, Tokens, RenderPattern, Errors;
    RenderAtSeam(p, q, logger, level, event);
    var a, k := LastText(Tokens(p)), LeadingErrors(Tokens(q));
    if k > 0 && a + Errors(k) == Errors(k) + a {
      var j := CommutingText(a, k);
    }
    forall j | a == Errors(j) ensures a + Errors(k) == Errors(k) + a {
      ErrorsCommute(j, k);
    }
    if k == 0 {
      ErrorsNone();
      assert a + "" == a == "" + a;
    }
  }

  lemma ErrorsNone()
    ensures Errors(0) == ""
  {}

  /** One such pair: what "ab" and "%d{x" render to, joined and one after the other. */
  lemma RenderConcatFails(logger: string, level: Level, event: LogEvent)
    ensures RenderPattern("ab" + "%d{x", logger, level, event) == "<<pattern_error>>" + "abd{x"
    ensures RenderPattern("ab", logger, level, event) + RenderPattern("%d{x", logger, level, event)
            == "ab" + ("<<pattern_error>>" + "d{x")
  {
    OvertakenSpelled();
    ErrorOvertakesLiteral("ab", "d", "x");
    hide *;
    PatternIs("ab", logger, level, event);
    PatternIs("%d{x", logger, level, event);
    PatternIs("ab" + "%d{x", logger, level, event);
    RenderError(logger, level, event);
    RenderLiteral("ab", logger, level, event);
    RenderLiteral("d{x", logger, level, event);
    RenderLiteral("abd{x", logger, level, event);
    RenderTokens([PatternError], [Literal("d{x")], logger, level, event);
    RenderTokens([PatternError], [Literal("abd{x")], logger, level, event);
  }

  lemma OvertakenSpelled()
    ensures "%" + "d" + "{" + "x" == "%d{x" && "d" + "{" + "x" == "d{x" && "ab" + "d{x" == "abd{x"
    ensures PATTERN_ERROR == "<<pattern_error>>"
  {}

  lemma PatternIs(pattern: string, logger: string, level: Level, event: LogEvent)
    ensures RenderPattern(pattern, logger, level, event) == Render(ItemsOf(Tokens(pattern)), logger, level, event)
  {}

  /** %r is meant to show the elapsed time; it shows the message, so it is right only where the two coincide. */
  lemma ElapsedExactly(logger: string, level: Level, event: LogEvent)
    ensures RenderPattern("%r", logger, level, event) == event.content
    ensures RenderPattern("%r", logger, level, event) == Decimal(event.elapse) <==>
            event.content == Decimal(event.elapse)
  {
    ElapsedTokens();
    hide Tokens;
    assert FIELDS[2] == 'r';
    var items := [FieldItem('r', "")];
    assert ItemsOf([Directive("r", "")]) == items && items[1..] == [];
    assert Render(items, logger, level, event) == event.content + "" == event.content;
  }

  /** An event with the message "x", at the very start: %r renders "x", not "0". */
  lemma ElapsedFails(logger: string, level: Level, event: LogEvent)
    requires event.content == "x" && event.elapse == 0
    ensures RenderPattern("%r", logger, level, event) == "x" && Decimal(event.elapse) == "0"
    ensures RenderPattern("%r", logger, level, event) != Decimal(event.elapse)
  {
    ElapsedExactly(logger, level, event);
    hide RenderPattern;
    assert Digits(0) == "" + [Digit(0)] == "0";
  }

  lemma ElapsedTokens()
    ensures Tokens("%r") == [Directive("r", "")]
  {
    BareHead("r", "");
    assert "%" + "r" + "" == "%r" && Scan("") == [];
    hide Head, Rest;
    AssembleHead("%r", "");
  }

  lemma {:induction false} DirectivesConcat(ps: seq<Piece>, qs: seq<Piece>)
    ensures Directives(ps + qs) == Directives(ps) + Directives(qs)
  {
    if ps == [] {
      assert ps + qs == qs;
    } else {
      var p := ps[0];
      DirectivesConcat(ps[1..], qs);
      assert (ps + qs)[0] == p && (ps + qs)[1..] == ps[1..] + qs;
      Associates(if p.Span? then [Directive(p.name, p.arg)] else [], Directives(ps[1..]), Directives(qs));
    }
  }

  lemma {:induction false} ErrorsAreDirectives(ts: seq<Token>)
    ensures HasError(ts) <==> HasError(DirectiveTokens(ts))
  {
    if ts != [] {
      ErrorsAreDirectives(ts[1..]);
      var ds := DirectiveTokens(ts[1..]);
      assert forall t :: t in ts <==> t == ts[0] || t in ts[1..];
      assert ts[0].Directive? ==> forall t :: t in DirectiveTokens(ts) <==> t == ts[0] || t in ds;
      assert !ts[0].Directive? ==> DirectiveTokens(ts) == ds;
    }
  }

  /** A concatenation is in error exactly if one of its parts is, when the seam holds. */
  lemma IsErrorConcat(p: string, q: string)
    requires SeamHolds(p, q)
    ensures IsError(p + q) <==> IsError(p) || IsError(q)
  {
    ScanConcat(p, q);
    DirectivesConcat(Scan(p), Scan(q));
    PatternAccounts(p);
    PatternAccounts(q);
    PatternAccounts(p + q);
    ErrorsAreDirectives(Tokens(p));
    ErrorsAreDirectives(Tokens(q));
    ErrorsAreDirectives(Tokens(p + q));
    assert forall t :: t in Directives(Scan(p)) + Directives(Scan(q)) <==>
             t in Directives(Scan(p)) || t in Directives(Scan(q));
  }
}

/** The parser and the renderer. */
module LogFormatting {
  import opened Common
  import opened LogItems
  import opened LogLevels
  import opened PatternCost
  import opened PatternGrammar

  /** From lo to hi there are only characters of a name. */
  predicate AllName(p: string, lo: nat, hi: nat) {
    lo <= hi <= |p| && forall k :: lo <= k < hi ==> IsNameChar(p[k])
  }

  /** From lo to hi nothing closes a group. */
  predicate NoClose(p: string, lo: nat, hi: nat) {
    lo <= hi <= |p| && forall k :: lo <= k < hi ==> p[k] != '}'
  }

  lemma AllNameGrows(p: string, lo: nat, hi: nat)
    requires lo <= hi < |p| && AllName(p, lo, hi) && IsNameChar(p[hi])
    ensures AllName(p, lo, hi + 1)
  {}

  lemma NothingYet(p: string, lo: nat)
    requires lo <= |p|
    ensures AllName(p, lo, lo) && NoClose(p, lo, lo)
  {}

  lemma NoCloseGrows(p: string, lo: nat, hi: nat)
    requires lo <= hi < |p| && NoClose(p, lo, hi) && p[hi] != '}'
    ensures NoClose(p, lo, hi + 1)
  {}

  /** A name that ends at n, with no brace group after it. */
  lemma BareAt(p: string, i: nat, n: nat)
    requires i < n <= |p| && p[i] == '%' && (i + 1 < |p| ==> p[i + 1] != '%')
    requires AllName(p, i + 1, n)
    requires n < |p| ==> !IsNameChar(p[n]) && p[n] != '{'
    ensures Head(p[i..]) == Span(p[i + 1..n], "", false) && Rest(p[i..]) == p[n..]
    ensures PieceCost(Head(p[i..]), |p[i..]|) == if n < |p| then n - i else n - i - 1
  {
    hide Head, Rest;
    var name, tail := p[i + 1..n], p[n..];
    assert p[i..] == "%" + name + tail;
    BareHead(name, tail);
  }

  /** A name that ends at b, where a brace group opens that closes at n - 1. */
  lemma BracedAt(p: string, i: nat, b: nat, n: nat)
    requires i < b < n - 1 < |p| && p[i] == '%' && p[b] == '{' && p[n - 1] == '}'
    requires AllName(p, i + 1, b)
    requires NoClose(p, b + 1, n - 1)
    ensures Head(p[i..]) == Span(p[i + 1..b], p[b + 1..n - 1], true) && Rest(p[i..]) == p[n..]
    ensures PieceCost(Head(p[i..]), |p[i..]|) == n - i - 1
  {
    hide Head, Rest;
    var name, arg, tail := p[i + 1..b], p[b + 1..n - 1], p[n..];
    assert p[i..] == "%" + name + "{" + arg + "}" + tail;
    BracedHead(name, arg, tail);
  }

  /** A name that ends at b, where a brace group opens that never closes. */
  lemma UnclosedAt(p: string, i: nat, b: nat)
    requires i < b < |p| && p[i] == '%' && p[b] == '{'
    requires AllName(p, i + 1, b)
    requires NoClose(p, b + 1, |p|)
    ensures Head(p[i..]) == Unclosed && Rest(p[i..]) == p[i + 1..]
    ensures PieceCost(Head(p[i..]), |p[i..]|) == |p| - i - 1
  {
    hide Head, Rest;
    var name, tail := p[i + 1..b], p[b + 1..];
    assert p[i..] == "%" + name + "{" + tail;
    UnclosedHead(name, tail);
    assert p[i + 1..] == name + "{" + tail;
  }

  /** A character that is not the percent sign of a directive. */
  lemma PlainAt(p: string, i: nat)
    requires i < |p| && (p[i] == '%' ==> i + 1 < |p| && p[i + 1] == '%')
    ensures Head(p[i..]) == if p[i] == '%' then Percent else Char(p[i])
    ensures Rest(p[i..]) == p[i + 1..]
  {
    assert p[i..] == [p[i]] + p[i + 1..];
  }

  /**
   The inner loop of LogFormatter::init, for the percent sign at i: it looks for
   the end of the directive.  The status is 0 when the directive is complete and
   1 when its brace group is still open at the end of the pattern; it is never 2.
   */
  method ScanDirective(pattern: string, i: nat)
    returns (n: nat, fmtStatus: int, str: string, fmt: string, ghost steps: nat)
    requires i < |pattern| && pattern[i] == '%' && (i + 1 < |pattern| ==> pattern[i + 1] != '%')
    ensures fmtStatus == 0 || fmtStatus == 1
    ensures fmtStatus == 0 ==>
              && Head(pattern[i..]).Span? && Head(pattern[i..]).name == str && Head(pattern[i..]).arg == fmt
              && i < n <= |pattern| && Rest(pattern[i..]) == pattern[n..]
    ensures fmtStatus == 1 ==> Head(pattern[i..]) == Unclosed && Rest(pattern[i..]) == pattern[i + 1..]
    ensures steps == PieceCost(Head(pattern[i..]), |pattern[i..]|)
  {
    hide Head, Rest, PieceCost, AllName, NoClose;
    n, fmtStatus, str, fmt, steps := i + 1, 0, "", "", 0;
    var fmtBegin := 0;
    ghost var closed := false;
    NothingYet(pattern, i + 1);
    while n < |pattern|
      invariant i < n <= |pattern| && !closed
      invariant fmtStatus == 0 || fmtStatus == 1
      invariant fmtStatus == 1 ==> i < fmtBegin < n && pattern[fmtBegin] == '{'
      invariant fmtStatus == 0 ==> fmt == "" && str == if n == |pattern| then pattern[i + 1..n] else ""
      invariant fmtStatus == 0 ==> AllName(pattern, i + 1, n)
      invariant fmtStatus == 1 ==> n < |pattern| ==> str == pattern[i + 1..fmtBegin]
      invariant fmtStatus == 1 ==> AllName(pattern, i + 1, fmtBegin) && NoClose(pattern, fmtBegin + 1, n)
      invariant steps == n - i - 1
    {
      steps := steps + 1;
      if fmtStatus == 0 && !IsLetter(pattern[n]) && pattern[n] != '{' && pattern[n] != '}' {
        str := pattern[i + 1..n];
        break;
      }
      if fmtStatus == 0 {
        if pattern[n] == '{' {
          str := pattern[i + 1..n];
          fmtStatus := 1;
          fmtBegin := n;
          n := n + 1;
          NothingYet(pattern, n);
          continue;
        }
        AllNameGrows(pattern, i + 1, n);
      } else if fmtStatus == 1 {
        if pattern[n] == '}' {
          fmt := pattern[fmtBegin + 1..n];
          fmtStatus := 0;
          n := n + 1;
          closed := true;
          BracedAt(pattern, i, fmtBegin, n);
          break;
        }
        NoCloseGrows(pattern, fmtBegin + 1, n);
      }
      n := n + 1;
      if n == |pattern| {
        if str == "" {
          str := pattern[i + 1..];
        }
      }
    }
    if fmtStatus == 1 {
      UnclosedAt(pattern, i, fmtBegin);
    } else if !closed {
      BareAt(pattern, i, n);
    }
  }

  /** The scan has reached i: what it found, and what the rest of the pattern adds, make up the whole. */
  ghost predicate Reached(pattern: string, i: nat, vec: seq<Token>, nstr: string, steps: nat) {
    && i <= |pattern|
    && Tokens(pattern) == vec + Assemble(Scan(pattern[i..]), nstr)
    && Cost(pattern) == steps + Cost(pattern[i..])
  }

  lemma ReachedStart(pattern: string)
    ensures Reached(pattern, 0, [], "", 0)
  {
    assert pattern[0..] == pattern;
  }

  lemma ReachedPlain(pattern: string, i: nat, vec: seq<Token>, nstr: string, steps: nat)
    requires i < |pattern| && (pattern[i] == '%' ==> i + 1 < |pattern| && pattern[i + 1] == '%')
    requires Reached(pattern, i, vec, nstr, steps)
    ensures Reached(pattern, i + 1, vec, nstr + [pattern[i]], steps)
  {
    PlainAt(pattern, i);
    hide Head, Rest, Scan, Assemble, Tokens;
    AssembleHead(pattern[i..], nstr);
  }

  lemma ReachedSpan(pattern: string, i: nat, n: nat, vec: seq<Token>, nstr: string, steps: nat)
    requires i < |pattern| && n <= |pattern| && Head(pattern[i..]).Span? && Rest(pattern[i..]) == pattern[n..]
    requires Reached(pattern, i, vec, nstr, steps)
    ensures var h := Head(pattern[i..]);
            Reached(pattern, n, vec + Flush(nstr) + [Directive(h.name, h.arg)], "",
                    steps + PieceCost(h, |pattern[i..]|))
  {
    hide Head, Rest, Scan, Assemble, Tokens, Flush, PieceCost;
    var rest, h := pattern[i..], Head(pattern[i..]);
    AssembleHead(rest, nstr);
    Associates(vec, Flush(nstr), [Directive(h.name, h.arg)]);
    Associates(vec, Flush(nstr) + [Directive(h.name, h.arg)], Assemble(Scan(Rest(rest)), ""));
  }

  lemma ReachedUnclosed(pattern: string, i: nat, vec: seq<Token>, nstr: string, steps: nat)
    requires i < |pattern| && Head(pattern[i..]) == Unclosed && Rest(pattern[i..]) == pattern[i + 1..]
    requires Reached(pattern, i, vec, nstr, steps)
    ensures Reached(pattern, i + 1, vec + [PatternError], nstr, steps + PieceCost(Unclosed, |pattern[i..]|))
  {
    hide Head, Rest, Scan, Assemble, Tokens, PieceCost;
    var rest := pattern[i..];
    AssembleHead(rest, nstr);
    Associates(vec, [PatternError], Assemble(Scan(Rest(rest)), nstr));
  }

  lemma ReachedEnd(pattern: string, vec: seq<Token>, nstr: string, steps: nat)
    requires Reached(pattern, |pattern|, vec, nstr, steps)
    ensures Tokens(pattern) == vec + Flush(nstr) && Cost(pattern) == steps
  {
    assert pattern[|pattern|..] == "";
  }

  /**
   The scan of LogFormatter::init.  It finds the tokens of the grammar, and steps
   counts the iterations of its inner loop.
   */
  method ParsePattern(pattern: string) returns (vec: seq<Token>, ghost steps: nat)
    ensures vec == Tokens(pattern)
    ensures steps == Cost(pattern)
  {
    hide Reached, Head, Rest, PieceCost, Tokens, Cost;
    vec, steps := [], 0;
    var nstr := "";
    var i := 0;
    ReachedStart(pattern);
    while i < |pattern|
      invariant Reached(pattern, i, vec, nstr, steps)
      invariant i <= |pattern|
    {
      if pattern[i] != '%' {
        ReachedPlain(pattern, i, vec, nstr, steps);
        nstr := nstr + [pattern[i]];
        i := i + 1;
        continue;
      }
      if i + 1 < |pattern| {
        if pattern[i + 1] == '%' {
          ReachedPlain(pattern, i, vec, nstr, steps);
          nstr := nstr + ['%'];
          i := i + 1;
          continue;
        }
      }
      var n, fmtStatus, str, fmt, s := ScanDirective(pattern, i);
      if fmtStatus == 0 {
        ReachedSpan(pattern, i, n, vec, nstr, steps);
        ghost var after := vec + Flush(nstr) + [Directive(str, fmt)];
        if nstr != "" {
          vec := vec + [Literal(nstr)];
          nstr := "";
        } else {
          assert vec + [] == vec;
        }
        vec := vec + [Directive(str, fmt)];
        assert vec == after;
        i := n - 1;
      } else if fmtStatus == 1 {
        ReachedUnclosed(pattern, i, vec, nstr, steps);
        vec := vec + [PatternError];
      } else if fmtStatus == 2 {
        assert false;
      }
      steps := steps + s;
      i := i + 1;
    }
    ReachedEnd(pattern, vec, nstr, steps);
    if nstr != "" {
      vec := vec + [Literal(nstr)];
    }
  }

  lemma ItemsSnoc(ts: seq<Token>, k: nat)
    requires k < |ts|
    ensures ItemsOf(ts[..k + 1]) == ItemsOf(ts[..k]) + [ItemOf(ts[k])]
    ensures HasError(ts[..k + 1]) <==> HasError(ts[..k]) || UnknownDirective(ts[k])
  {
    assert ts[..k + 1] == ts[..k] + [ts[k]];
    assert forall t :: t in ts[..k + 1] <==> t == ts[k] || t in ts[..k];
  }

  /** The second loop of LogFormatter::init: from tokens to items. */
  method BuildItems(vec: seq<Token>) returns (items: seq<Item>, error: bool)
    ensures items == ItemsOf(vec) && error == HasError(vec)
  {
    items, error := [], false;
    for k := 0 to |vec|
      invariant items == ItemsOf(vec[..k]) && error == HasError(vec[..k])
    {
      ItemsSnoc(vec, k);
      hide ItemsOf, HasError;
      match vec[k]
      case Literal(text) => items := items + [StringItem(text)];
      case PatternError => items := items + [StringItem(PATTERN_ERROR)];
      case Directive(name, arg) =>
        if !Known(name) {
          items := items + [StringItem("<<error_format %" + name + ">>")];
          error := true;
        } else {
          items := items + [FieldItem(name[0], arg)];
        }
    }
    assert vec[..|vec|] == vec;
  }

  /**
   A formatter: its pattern, the items it renders, and whether its pattern has an
   unknown directive.  None of the three changes once the formatter is made.
   */
  class LogFormatter {
    const pattern: string
    const items: seq<Item>
    const error: bool

    predicate Valid() {
      items == ItemsOf(Tokens(pattern)) && error == IsError(pattern)
    }

    constructor (pattern: string)
      ensures Valid() && this.pattern == pattern
    {
      var vec, _ := ParsePattern(pattern);
      var list, bad := BuildItems(vec);
      this.pattern, items, error := pattern, list, bad;
    }

    /** The text of an event, item by item. */
    method Format(logger: string, level: Level, event: LogEvent) returns (text: string)
      requires Valid()
      ensures text == RenderPattern(pattern, logger, level, event)
    {
      hide RenderItem, ItemsOf, Tokens, IsError;
      text := "";
      for k := 0 to |items|
        invariant text == Render(items[..k], logger, level, event)
      {
        RenderConcat(items[..k], [items[k]], logger, level, event);
        assert items[..k + 1] == items[..k] + [items[k]];
        text := text + RenderItem(items[k], logger, level, event);
      }
      assert items[..|items|] == items;
    }
  }
}
