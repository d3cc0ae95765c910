/** The default pattern is not in error, and so neither is any pattern a logger gets. */
module DefaultPattern {
  import opened Common
  import opened LogDefines
  import opened LogItems
  import opened PatternGrammar

  lemma ErrorScan(s: string)
    ensures IsError(s) <==> exists p :: p in Scan(s) && p.Span? && !Known(p.name)
  {
    PatternAccounts(s);
    ErrorsAreDirectives(Tokens(s));
    DirectivesOf(Scan(s));
    hide Scan, Tokens;
    forall p | p in Scan(s) && p.Span? && !Known(p.name) ensures IsError(s) {
      assert Directive(p.name, p.arg) in Directives(Scan(s));
    }
  }

  lemma {:induction false} DirectivesOf(ps: seq<Piece>)
    ensures forall t :: t in Directives(ps) <==> exists p :: p in ps && p.Span? && t == Directive(p.name, p.arg)
  {
    if ps != [] {
      DirectivesOf(ps[1..]);
      var h, rest := ps[0], Directives(ps[1..]);
      assert forall p :: p in ps <==> p == h || p in ps[1..];
      assert forall t :: t in Directives(ps) <==> t in rest || (h.Span? && t == Directive(h.name, h.arg));
    }
  }

  lemma ErrorHead(s: string)
    requires s != ""
    ensures IsError(s) <==> IsError(Rest(s)) || (Head(s).Span? && !Known(Head(s).name))
  {
    hide Head, Rest, IsError;
    ErrorScan(s);
    ErrorScan(Rest(s));
    ScanCons(s);
    hide Scan;
    assert forall p :: p in Scan(s) <==> p == Head(s) || p in Scan(Rest(s));
  }

  /** A known directive, written without braces, before text that cannot extend it. */
  lemma GoodBare(name: string, tail: string)
    requires Known(name) && !IsError(tail)
    requires tail != "" ==> !IsNameChar(tail[0]) && tail[0] != '{'
    ensures !IsError("%" + name + tail)
  {
    hide IsError;
    BareHead(name, tail);
    ErrorHead("%" + name + tail);
  }

  lemma GoodBraced(name: string, arg: string, tail: string)
    requires Known(name) && !IsError(tail) && '}' !in arg
    ensures !IsError("%" + name + "{" + arg + "}" + tail)
  {
    hide IsError;
    BracedHead(name, arg, tail);
    ErrorHead("%" + name + "{" + arg + "}" + tail);
  }

  lemma {:induction false} GoodPlain(text: string, tail: string)
    requires '%' !in text && !IsError(tail)
    ensures !IsError(text + tail)
  {
    hide IsError;
    if text == "" {
      assert text + tail == tail;
    } else {
      var s := text + tail;
      assert s == [text[0]] + (text[1..] + tail);
      GoodPlain(text[1..], tail);
      assert Head(s) == Char(text[0]);
      assert Rest(s) == text[1..] + tail;
      ErrorHead(s);
    }
  }

  /** A known directive and the plain text after it, before a pattern that is not in error. */
  lemma GoodPiece(piece: string, name: string, text: string, tail: string)
    requires piece == "%" + name + text && Known(name) && '%' !in text && !IsError(tail)
    requires text != "" ==> !IsNameChar(text[0]) && text[0] != '{'
    requires text == "" && tail != "" ==> tail[0] == '%'
    ensures !IsError(piece + tail)
  {
    hide IsError, Known;
    GoodPlain(text, tail);
    assert text + tail != "" ==> (text + tail)[0] == if text != "" then text[0] else tail[0];
    GoodBare(name, text + tail);
    Associates("%" + name, text, tail);
  }

  lemma NoError()
    ensures !IsError("")
  {}

  lemma Fields()
    ensures Known("m") && Known("p") && Known("c") && Known("t") && Known("d") && Known("f")
    ensures Known("l") && Known("n") && Known("T")
  {}

  lemma GoodMessage()
    ensures !IsError("%T " + ("%m  " + "%n"))
  {
    Fields();
    NoError();
    hide IsError, Known;
    assert "%n" + "" == "%n";
    GoodPiece("%n", "n", "", "");
    GoodPiece("%m  ", "m", "  ", "%n");
    GoodPiece("%T ", "T", " ", "%m  " + "%n");
  }

  lemma GoodPlace(message: string)
    requires !IsError(message) && message != "" && message[0] == '%'
    ensures !IsError("%T " + ("%f:" + ("%l" + message)))
  {
    Fields();
    hide IsError, Known;
    GoodPiece("%l", "l", "", message);
    GoodPiece("%f:", "f", ":", "%l" + message);
    GoodPiece("%T ", "T", " ", "%f:" + ("%l" + message));
  }

  lemma GoodEnd()
    ensures !IsError(DEFAULT_END)
  {
    GoodMessage();
    hide IsError;
    GoodPlace("%T " + ("%m  " + "%n"));
  }

  lemma GoodBracket(name: string, tail: string)
    requires Known(name) && !IsError(tail)
    ensures !IsError("%T[" + ("%" + name + "]" + tail)) && !IsError("%T [" + ("%" + name + "]" + tail))
  {
    Fields();
    hide IsError, Known;
    GoodPiece("%" + name + "]", name, "]", tail);
    GoodPiece("%T[", "T", "[", "%" + name + "]" + tail);
    GoodPiece("%T [", "T", " [", "%" + name + "]" + tail);
  }

  lemma GoodBody(end: string)
    requires !IsError(end)
    ensures !IsError("%T [" + ("%p]" + ("%T[" + ("%t]" + ("%T[" + ("%c]" + end))))))
  {
    Fields();
    Brackets();
    hide IsError, Known;
    GoodBracket("c", end);
    GoodBracket("t", "%T[" + ("%c]" + end));
    GoodBracket("p", "%T[" + ("%t]" + ("%T[" + ("%c]" + end))));
  }

  lemma Brackets()
    ensures "%" + "c" + "]" == "%c]" && "%" + "t" + "]" == "%t]" && "%" + "p" + "]" == "%p]"
  {}

  lemma DateSpelled()
    ensures "%" + "d" + "{" + DEFAULT_DATE + "}" == "%d{%Y-%m-%d %H:%M:%S}"
    ensures '}' !in DEFAULT_DATE
  {}

  /** The pattern every logger starts with takes effect. */
  lemma DefaultIsEffective()
    ensures Effective(DEFAULT_PATTERN)
  {
    Fields();
    GoodEnd();
    DateSpelled();
    hide IsError, Known;
    GoodBody(DEFAULT_END);
    hide *;
    GoodBraced("d", DEFAULT_DATE, "%T [" + ("%p]" + ("%T[" + ("%t]" + ("%T[" + ("%c]" + DEFAULT_END))))));
    EffectiveIs(DEFAULT_PATTERN);
  }

  lemma EffectiveIs(pattern: string)
    requires pattern != "" && !IsError(pattern)
    ensures Effective(pattern)
  {
    hide IsError;
  }
}
