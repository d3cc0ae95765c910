/**
 The grammar of log patterns.

 A pattern is read from left to right as a sequence of pieces: ordinary
 characters, the first of two consecutive percent signs, directives, and the
 percent sign of a directive whose brace group never closes.  Tokens are what
 the formatter keeps: adjacent characters become one literal, and a literal is
 held back until the next directive or the end of the pattern.
 */
module PatternGrammar {
  import opened Common

  datatype Token =
    | Literal(text: string)
    | PatternError
    | Directive(name: string, arg: string)

  datatype Piece =
    | Char(c: char)
    | Percent
    | Unclosed
    | Span(name: string, arg: string, braced: bool)

  predicate IsLetter(c: char) {
    'a' <= c <= 'z' || 'A' <= c <= 'Z'
  }

  /** The characters that extend a directive's name: letters, and also '}'. */
  predicate IsNameChar(c: char) {
    IsLetter(c) || c == '}'
  }

  /** The length of the longest prefix of s made of name characters. */
  function NameRun(s: string): (k: nat)
    ensures k <= |s|
    ensures forall i :: 0 <= i < k ==> IsNameChar(s[i])
    ensures k < |s| ==> !IsNameChar(s[k])
  {
    if s == "" || !IsNameChar(s[0]) then 0 else 1 + NameRun(s[1..])
  }

  /** The index of the first '}' in s, or |s| if there is none. */
  function FirstClose(s: string): (k: nat)
    ensures k <= |s|
    ensures forall i :: 0 <= i < k ==> s[i] != '}'
    ensures k < |s| ==> s[k] == '}'
  {
    if s == "" || s[0] == '}' then 0 else 1 + FirstClose(s[1..])
  }

  /** The first piece of a non-empty pattern. */
  function Head(s: string): (p: Piece)
    requires s != ""
  {
    if s[0] != '%' then Char(s[0])
    else if |s| > 1 && s[1] == '%' then Percent
    else
      var k := 1 + NameRun(s[1..]);
      if k == |s| || s[k] != '{' then Span(s[1..k], "", false)
      else
        var j := k + 1 + FirstClose(s[k + 1..]);
        if j == |s| then Unclosed else Span(s[1..k], s[k + 1..j], true)
  }

  /** The text a piece is written as. */
  function Text(p: Piece): string {
    match p
    case Char(c) => [c]
    case Percent => "%"
    case Unclosed => "%"
    case Span(name, arg, braced) => if braced then "%" + name + "{" + arg + "}" else "%" + name
  }

  /** A percent sign that starts a directive, whose name ends at k. */
  predicate NameEnds(s: string, k: nat) {
    && s != "" && s[0] == '%' && !(|s| > 1 && s[1] == '%')
    && k == 1 + NameRun(s[1..]) <= |s|
  }

  lemma NameAt(s: string) returns (k: nat)
    requires s != "" && s[0] == '%' && !(|s| > 1 && s[1] == '%')
    ensures NameEnds(s, k)
    ensures 0 < k <= |s| && forall i :: 0 <= i < k - 1 ==> IsNameChar(s[1..k][i])
    ensures k < |s| ==> !IsNameChar(s[k])
  {
    k := 1 + NameRun(s[1..]);
    assert forall i :: 0 <= i < k - 1 ==> s[1..k][i] == s[1..][i];
    assert k < |s| ==> s[1..][k - 1] == s[k];
  }

  lemma BareParts(s: string, k: nat)
    requires NameEnds(s, k) && (k == |s| || s[k] != '{')
    ensures Head(s) == Span(s[1..k], "", false) && s == "%" + s[1..k] + s[k..]
  {
    assert Head(s) == Span(s[1..k], "", false);
    hide Head, NameRun, FirstClose;
    BareText(s, k);
  }

  lemma BareText(s: string, k: nat)
    requires 0 < k <= |s| && s[0] == '%'
    ensures s == "%" + s[1..k] + s[k..]
  {}

  lemma UnclosedParts(s: string, k: nat)
    requires NameEnds(s, k) && k < |s| && s[k] == '{' && FirstClose(s[k + 1..]) == |s| - k - 1
    ensures Head(s) == Unclosed && s == "%" + s[1..k] + "{" + s[k + 1..] && '}' !in s[k + 1..]
  {
    assert Head(s) == Unclosed;
    hide Head, NameRun, FirstClose;
    UnclosedText(s, k);
  }

  lemma UnclosedText(s: string, k: nat)
    requires 0 < k < |s| && s[0] == '%' && s[k] == '{'
    ensures s == "%" + s[1..k] + "{" + s[k + 1..]
  {}

  lemma BracedParts(s: string, k: nat, j: nat)
    requires NameEnds(s, k) && k < |s| && s[k] == '{' && j == k + 1 + FirstClose(s[k + 1..]) < |s|
    ensures Head(s) == Span(s[1..k], s[k + 1..j], true) && '}' !in s[k + 1..j]
    ensures s == "%" + s[1..k] + "{" + s[k + 1..j] + "}" + s[j + 1..]
  {
    assert Head(s) == Span(s[1..k], s[k + 1..j], true);
    assert s[k + 1..j] == s[k + 1..][..j - k - 1];
    assert s[j] == s[k + 1..][j - k - 1] == '}';
    hide Head, NameRun, FirstClose;
    BracedText(s, k, j);
  }

  lemma BracedText(s: string, k: nat, j: nat)
    requires 0 < k < j < |s| && s[0] == '%' && s[k] == '{' && s[j] == '}'
    ensures s == "%" + s[1..k] + "{" + s[k + 1..j] + "}" + s[j + 1..]
  {}

  /**
   The parts of a pattern that starts a directive: it is a bare directive, a
   braced one or an unclosed one, and there is no fourth possibility.
   */
  lemma DirectiveHead(s: string) returns (name: string, arg: string, tail: string)
    requires s != "" && s[0] == '%' && !(|s| > 1 && s[1] == '%')
    ensures forall i :: 0 <= i < |name| ==> IsNameChar(name[i])
    ensures Head(s) == Span(name, "", false) ==>
              arg == "" && s == "%" + name + tail && (tail == "" || (!IsNameChar(tail[0]) && tail[0] != '{'))
    ensures Head(s) == Span(name, arg, true) ==> '}' !in arg && s == "%" + name + "{" + arg + "}" + tail
    ensures Head(s) == Unclosed ==> '}' !in tail && s == "%" + name + "{" + tail
    ensures Head(s) in {Span(name, "", false), Span(name, arg, true), Unclosed}
  {
    hide Head, NameRun, FirstClose, NameEnds;
    var k := NameAt(s);
    name := s[1..k];
    if k == |s| || s[k] != '{' {
      arg, tail := "", s[k..];
      BareParts(s, k);
    } else {
      var j := k + 1 + FirstClose(s[k + 1..]);
      if j == |s| {
        arg, tail := "", s[k + 1..];
        UnclosedParts(s, k);
      } else {
        arg, tail := s[k + 1..j], s[j + 1..];
        BracedParts(s, k, j);
      }
    }
  }

  /** The first piece of a pattern is written as a non-empty prefix of it. */
  lemma HeadIsPrefix(s: string)
    requires s != ""
    ensures 1 <= |Text(Head(s))| <= |s| && Text(Head(s)) == s[..|Text(Head(s))|]
  {
    if s[0] == '%' && !(|s| > 1 && s[1] == '%') {
      var _, _, tail := DirectiveHead(s);
      hide Head;
      assert Head(s) != Unclosed ==> s == Text(Head(s)) + tail;
    }
  }

  /** What follows the first piece. */
  function Rest(s: string): (r: string)
    requires s != ""
    ensures |r| < |s|
    ensures s == Text(Head(s)) + r
  {
    HeadIsPrefix(s);
    s[|Text(Head(s))|..]
  }

  /** All pieces of a pattern, in order. */
  function Scan(s: string): seq<Piece>
    decreases |s|
  {
    if s == "" then [] else [Head(s)] + Scan(Rest(s))
  }

  /** The text of a piece list. */
  function Spell(ps: seq<Piece>): string {
    if ps == [] then "" else Text(ps[0]) + Spell(ps[1..])
  }

  /** A pending literal is emitted only if it is not empty. */
  function Flush(pending: string): seq<Token> {
    if pending == "" then [] else [Literal(pending)]
  }

  /**
   The tokens of a piece list, given the literal that is still pending.  An
   unclosed group emits its error token at once and leaves the literal pending.
   */
  function Assemble(ps: seq<Piece>, pending: string): seq<Token> {
    if ps == [] then Flush(pending)
    else match ps[0]
      case Char(c) => Assemble(ps[1..], pending + [c])
      case Percent => Assemble(ps[1..], pending + "%")
      case Unclosed => [PatternError] + Assemble(ps[1..], pending)
      case Span(name, arg, _) => Flush(pending) + [Directive(name, arg)] + Assemble(ps[1..], "")
  }

  /** The tokens of a pattern. */
  function Tokens(s: string): seq<Token> {
    Assemble(Scan(s), "")
  }

  /** No brace group of the pattern is left open. */
  predicate Terminated(s: string) {
    Unclosed !in Scan(s)
  }

  // ---------------------------------------------------------------------
  // How the first piece is recognised

  /** A run of name characters that cannot be extended is the longest one. */
  lemma {:induction false} NameRunIs(s: string, k: nat)
    requires k <= |s|
    requires forall i :: 0 <= i < k ==> IsNameChar(s[i])
    requires k < |s| ==> !IsNameChar(s[k])
    ensures NameRun(s) == k
  {
    if k > 0 {
      NameRunIs(s[1..], k - 1);
    }
  }

  lemma {:induction false} FirstCloseIs(s: string, k: nat)
    requires k <= |s|
    requires forall i :: 0 <= i < k ==> s[i] != '}'
    requires k < |s| ==> s[k] == '}'
    ensures FirstClose(s) == k
  {
    if k > 0 {
      FirstCloseIs(s[1..], k - 1);
    }
  }

  /** A name that cannot be extended and is not followed by '{' is a directive of its own. */
  lemma BareHead(name: string, tail: string)
    requires forall i :: 0 <= i < |name| ==> IsNameChar(name[i])
    requires tail == "" || (!IsNameChar(tail[0]) && tail[0] != '{')
    requires name == "" && tail != "" ==> tail[0] != '%'
    ensures Head("%" + name + tail) == Span(name, "", false)
    ensures Rest("%" + name + tail) == tail
  {
    var s := "%" + name + tail;
    assert s[1..] == name + tail;
    NameRunIs(s[1..], |name|);
    assert s[1..1 + |name|] == name;
    if |s| > 1 {
      assert s[1] == (name + tail)[0];
    }
    assert Text(Head(s)) == "%" + name;
  }

  /** Where the name of a directive with a brace group ends. */
  lemma GroupStart(name: string, u: string)
    requires forall i :: 0 <= i < |name| ==> IsNameChar(name[i])
    ensures var s := "%" + name + "{" + u;
            && NameRun(s[1..]) == |name| && s[1..1 + |name|] == name
            && s[1] != '%' && s[1 + |name|] == '{' && s[2 + |name|..] == u
  {
    var s := "%" + name + "{" + u;
    assert s[1..] == name + ("{" + u);
    NameRunIs(s[1..], |name|);
    assert s[1] == if name == "" then '{' else name[0];
  }

  /** A name followed by a closed brace group is a directive with an argument. */
  lemma BracedHead(name: string, arg: string, tail: string)
    requires forall i :: 0 <= i < |name| ==> IsNameChar(name[i])
    requires '}' !in arg
    ensures Head("%" + name + "{" + arg + "}" + tail) == Span(name, arg, true)
    ensures Rest("%" + name + "{" + arg + "}" + tail) == tail
  {
    hide NameRun, FirstClose;
    var s, u := "%" + name + "{" + arg + "}" + tail, arg + ("}" + tail);
    assert s == "%" + name + "{" + u;
    GroupStart(name, u);
    FirstCloseIs(u, |arg|);
    assert s[2 + |name|..2 + |name| + |arg|] == u[..|arg|] == arg;
    assert Head(s) == Span(name, arg, true);
    hide Head;
    CancelsLeft(Text(Head(s)), Rest(s), tail);
  }

  /** A name followed by a brace group that never closes. */
  lemma UnclosedHead(name: string, tail: string)
    requires forall i :: 0 <= i < |name| ==> IsNameChar(name[i])
    requires '}' !in tail
    ensures Head("%" + name + "{" + tail) == Unclosed
    ensures Rest("%" + name + "{" + tail) == name + "{" + tail
  {
    var s := "%" + name + "{" + tail;
    GroupStart(name, tail);
    FirstCloseIs(tail, |tail|);
    assert Head(s) == Unclosed;
    hide Head;
    assert s == "%" + (name + "{" + tail);
    CancelsLeft("%", Rest(s), name + "{" + tail);
  }

  // ---------------------------------------------------------------------
  // One step of the scan

  lemma ScanCons(s: string)
    requires s != ""
    ensures Scan(s) == [Head(s)] + Scan(Rest(s))
  {
    hide Head, Rest;
  }

  /** What the first piece of a pattern adds to its tokens. */
  lemma AssembleHead(s: string, pending: string)
    requires s != ""
    ensures Head(s).Char? ==> Assemble(Scan(s), pending) == Assemble(Scan(Rest(s)), pending + [Head(s).c])
    ensures Head(s).Percent? ==> Assemble(Scan(s), pending) == Assemble(Scan(Rest(s)), pending + "%")
    ensures Head(s).Unclosed? ==> Assemble(Scan(s), pending) == [PatternError] + Assemble(Scan(Rest(s)), pending)
    ensures Head(s).Span? ==>
              Assemble(Scan(s), pending) ==
              Flush(pending) + [Directive(Head(s).name, Head(s).arg)] + Assemble(Scan(Rest(s)), "")
  {
    ScanCons(s);
    hide Head, Rest, Scan, Flush;
    assert ([Head(s)] + Scan(Rest(s)))[1..] == Scan(Rest(s));
  }

  // ---------------------------------------------------------------------
  // Every character is accounted for

  /** The pieces of any pattern, well formed or not, spell the pattern. */
  lemma {:induction false} ScanSpells(s: string)
    ensures Spell(Scan(s)) == s
    decreases |s|
  {
    if s != "" {
      ScanSpells(Rest(s));
    }
  }

  function LiteralLength(ts: seq<Token>): nat {
    if ts == [] then 0
    else (if ts[0].Literal? then |ts[0].text| else 0) + LiteralLength(ts[1..])
  }

  function ErrorCount(ts: seq<Token>): nat {
    if ts == [] then 0 else (if ts[0].PatternError? then 1 else 0) + ErrorCount(ts[1..])
  }

  /** The characters taken by directives: percent sign, name, braces and argument. */
  function SpanLength(ps: seq<Piece>): nat {
    if ps == [] then 0
    else (if ps[0].Span? then |Text(ps[0])| else 0) + SpanLength(ps[1..])
  }

  /** The directives of a piece list, as the tokens they become. */
  function Directives(ps: seq<Piece>): seq<Token> {
    if ps == [] then []
    else (if ps[0].Span? then [Directive(ps[0].name, ps[0].arg)] else []) + Directives(ps[1..])
  }

  function DirectiveTokens(ts: seq<Token>): seq<Token> {
    if ts == [] then []
    else (if ts[0].Directive? then [ts[0]] else []) + DirectiveTokens(ts[1..])
  }

  lemma TokenCounts(ts: seq<Token>, us: seq<Token>)
    ensures LiteralLength(ts + us) == LiteralLength(ts) + LiteralLength(us)
    ensures ErrorCount(ts + us) == ErrorCount(ts) + ErrorCount(us)
    ensures DirectiveTokens(ts + us) == DirectiveTokens(ts) + DirectiveTokens(us)
  {
    if ts == [] {
      assert ts + us == us;
    } else {
      var t, rest := ts[0], ts[1..];
      TokenCounts(rest, us);
      assert (ts + us)[0] == t && (ts + us)[1..] == rest + us;
      Associates(if t.Directive? then [t] else [], DirectiveTokens(rest), DirectiveTokens(us));
    }
  }

  lemma {:induction false} AssembleAccounts(ps: seq<Piece>, pending: string)
    ensures |pending| + |Spell(ps)| ==
            LiteralLength(Assemble(ps, pending)) + SpanLength(ps) + ErrorCount(Assemble(ps, pending))
    ensures DirectiveTokens(Assemble(ps, pending)) == Directives(ps)
  {
    if ps != [] {
      match ps[0]
      case Char(c) => AssembleAccounts(ps[1..], pending + [c]);
      case Percent => AssembleAccounts(ps[1..], pending + "%");
      case Unclosed =>
        AssembleAccounts(ps[1..], pending);
        TokenCounts([PatternError], Assemble(ps[1..], pending));
      case Span(name, arg, _) =>
        AssembleAccounts(ps[1..], "");
        TokenCounts(Flush(pending), [Directive(name, arg)]);
        TokenCounts(Flush(pending) + [Directive(name, arg)], Assemble(ps[1..], ""));
    }
  }

  /**
   Character accounting, for every pattern: its length is the length of its
   literals, plus the length of its directives, plus one for each pattern error;
   and the tokens keep every directive, in order.
   */
  lemma PatternAccounts(s: string)
    ensures |s| == LiteralLength(Tokens(s)) + SpanLength(Scan(s)) + ErrorCount(Tokens(s))
    ensures DirectiveTokens(Tokens(s)) == Directives(Scan(s))
    ensures Spell(Scan(s)) == s
  {
    ScanSpells(s);
    AssembleAccounts(Scan(s), "");
  }

  // ---------------------------------------------------------------------
  // Unclosed groups

  /** Scanning ordinary characters yields them one by one. */
  lemma {:induction false} ScanPlain(text: string, tail: string)
    requires '%' !in text
    ensures Scan(text + tail) == Chars(text) + Scan(tail)
  {
    if text == "" {
      assert text + tail == tail;
    } else {
      var s := text + tail;
      PlainHead(s);
      CharsCons(text);
      assert s[1..] == text[1..] + tail;
      hide Head, Rest, Chars;
      ScanPlain(text[1..], tail);
      ScanCons(s);
      hide Scan;
      Associates([Char(text[0])], Chars(text[1..]), Scan(tail));
    }
  }

  /** Ordinary characters as pieces. */
  function Chars(text: string): seq<Piece> {
    seq(|text|, i requires 0 <= i < |text| => Char(text[i]))
  }

  lemma CharsCons(text: string)
    requires text != ""
    ensures Chars(text) == [Char(text[0])] + Chars(text[1..])
  {}

  lemma PlainHead(s: string)
    requires s != "" && s[0] != '%'
    ensures Head(s) == Char(s[0]) && Rest(s) == s[1..]
  {
    assert Text(Head(s)) == [s[0]];
  }

  lemma {:induction false} NoCloseNoBraces(s: string)
    requires '}' !in s
    ensures forall p :: p in Scan(s) ==> p.Span? ==> !p.braced
    decreases |s|
  {
    if s != "" {
      assert s == Text(Head(s)) + Rest(s);
      NoCloseNoBraces(Rest(s));
    }
  }

  /** After an unclosed group nothing has an argument. */
  lemma AfterUnclosed(s: string)
    requires s != "" && Head(s) == Unclosed
    ensures forall p :: p in Scan(Rest(s)) ==> p.Span? ==> !p.braced
  {
    var name, _, tail := DirectiveHead(s);
    UnclosedHead(name, tail);
    assert s == "%" + name + "{" + tail;
    assert '%' !in name + "{";
    assert Rest(s) == (name + "{") + tail;
    ScanPlain(name + "{", tail);
    NoCloseNoBraces(tail);
  }

  /** After an unclosed group no directive of the list has an argument. */
  predicate UnclosedToTheEnd(ps: seq<Piece>) {
    forall i, j :: 0 <= i < j < |ps| && ps[i].Unclosed? && ps[j].Span? ==> !ps[j].braced
  }

  lemma UnclosedCons(p: Piece, rest: seq<Piece>)
    requires UnclosedToTheEnd(rest)
    requires p.Unclosed? ==> forall q :: q in rest ==> q.Span? ==> !q.braced
    ensures UnclosedToTheEnd([p] + rest)
  {
    var ps := [p] + rest;
    assert forall j :: 1 <= j < |ps| ==> ps[j] == rest[j - 1] && ps[j] in rest;
  }

  /** Once one brace group of a pattern is unclosed, every later one is, too. */
  lemma {:induction false} UnclosedSuffix(s: string)
    ensures UnclosedToTheEnd(Scan(s))
    decreases |s|
  {
    if s != "" {
      hide *;
      ScanCons(s);
      UnclosedSuffix(Rest(s));
      if Head(s).Unclosed? {
        AfterUnclosed(s);
      }
      UnclosedCons(Head(s), Scan(Rest(s)));
    }
  }
}
