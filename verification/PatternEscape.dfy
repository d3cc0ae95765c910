/**
 Percent signs in a row.  Two of them are meant as an escape for one, but only
 the first is taken: the second is looked at again.
 */
module PatternEscapes {
  import opened Common
  import opened DefaultPattern
  import opened LogItems
  import opened PatternConcat
  import opened PatternGrammar
  import opened PatternPrinting

  function Percents(k: nat): string {
    seq(k, _ => '%')
  }

  /**
   The run law: k percent signs add k - 1 of them to the literal, and the last one
   goes on to start whatever it starts before the text that follows.
   */
  lemma PercentRun(k: nat, tail: string, pending: string)
    requires k >= 1
    ensures Assemble(Scan(Percents(k) + tail), pending) == Assemble(Scan("%" + tail), pending + Percents(k - 1))
  {
    assert Percents(k) + tail == Percents(k - 1) + ("%" + tail);
    PrintedLiteral(Percents(k - 1), "%" + tail, true, pending);
  }

  /** The length of what some directives are written as, but for their braces. */
  function BareLength(ds: seq<Token>): nat {
    if ds == [] then 0
    else (if ds[0].Directive? then 1 + |ds[0].name| + |ds[0].arg| else 0) + BareLength(ds[1..])
  }

  /** What the directives of a pattern are written as is known up to their braces, two each. */
  lemma {:induction false} SpanParity(s: string)
    ensures exists k: nat :: SpanLength(Scan(s)) == BareLength(Directives(Scan(s))) + 2 * k
    decreases |s|
  {
    if s == "" {
      assert SpanLength(Scan(s)) == BareLength(Directives(Scan(s))) + 2 * 0;
    } else {
      var h, ps := Head(s), Scan(Rest(s));
      ScanCons(s);
      SpanParity(Rest(s));
      var k: nat :| SpanLength(ps) == BareLength(Directives(ps)) + 2 * k;
      assert h.Span? && !h.braced ==> h.arg == "";
      hide Head, Rest, Scan;
      assert ([h] + ps)[1..] == ps;
      if h.Span? {
        assert Directives([h] + ps) == [Directive(h.name, h.arg)] + Directives(ps);
        assert ([Directive(h.name, h.arg)] + Directives(ps))[1..] == Directives(ps);
        var j := if h.braced then k + 1 else k;
        assert SpanLength([h] + ps) == BareLength(Directives([h] + ps)) + 2 * j;
      } else {
        assert Directives([h] + ps) == [] + Directives(ps) == Directives(ps);
        assert SpanLength([h] + ps) == BareLength(Directives([h] + ps)) + 2 * k;
      }
    }
  }

  /** An extra percent sign is never absorbed: it shows in the length of the literals or as a directive. */
  lemma PercentShows(tail: string, pending: string)
    ensures Assemble(Scan("%" + tail), pending) != Assemble(Scan(tail), pending)
  {
    var ps, qs := Scan("%" + tail), Scan(tail);
    ScanSpells("%" + tail);
    ScanSpells(tail);
    AssembleAccounts(ps, pending);
    AssembleAccounts(qs, pending);
    SpanParity("%" + tail);
    SpanParity(tail);
    hide *;
    assert |"%" + tail| == 1 + |tail|;
  }

  /**
   The escape never works: whatever is pending and whatever follows, two percent
   signs do not give what one literal percent sign would.
   */
  lemma NeverEscapes(tail: string, pending: string)
    ensures Assemble(Scan("%%" + tail), pending) != Assemble(Scan(tail), pending + "%")
  {
    assert Percents(2) == "%%" && Percents(1) == "%";
    PercentRun(2, tail, pending);
    PercentShows(tail, pending + "%");
  }

  /** Plain text that ends in percent signs has one of them fewer, and a nameless directive. */
  lemma TrailingPercents(text: string, k: nat)
    requires '%' !in text && k >= 1
    ensures Tokens(text + Percents(k)) == Flush(text + Percents(k - 1)) + [Directive("", "")]
  {
    hide Scan;
    PrintedLiteral(text, Percents(k), false, "");
    assert Percents(k) + "" == Percents(k) && "" + text == text;
    PercentRun(k, "", text);
    LonePercent(text + Percents(k - 1));
    assert "%" + "" == "%";
  }

  lemma LonePercent(pending: string)
    ensures Assemble(Scan("%"), pending) == Flush(pending) + [Directive("", "")]
  {
    BareHead("", "");
    assert "%" + "" + "" == "%";
    AssembleHead("%", pending);
  }

  /** A pattern that ends in a percent sign is in error, whatever comes before it. */
  lemma {:induction false} TrailingPercentIsError(s: string)
    requires s != "" && s[|s| - 1] == '%'
    ensures IsError(s)
    decreases |s|
  {
    ErrorHead(s);
    var rest := Rest(s);
    assert s == Text(Head(s)) + rest;
    if rest != "" {
      assert rest[|rest| - 1] == s[|s| - 1];
      TrailingPercentIsError(rest);
    } else {
      NothingAfter(s);
    }
  }

  lemma LastOfBare(name: string)
    requires forall i :: 0 <= i < |name| ==> IsNameChar(name[i])
    ensures ("%" + name)[|name|] == '%' <==> name == ""
  {
    assert name != "" ==> ("%" + name)[|name|] == name[|name| - 1];
  }

  /** The only piece that ends a pattern with a percent sign is a directive without a name. */
  lemma NothingAfter(s: string)
    requires s != "" && s[|s| - 1] == '%' && Rest(s) == ""
    ensures Head(s) == Span("", "", false)
  {
    assert s == Text(Head(s)) + "" == Text(Head(s));
    if s[0] == '%' && !(|s| > 1 && s[1] == '%') {
      var name, arg, tail := DirectiveHead(s);
      hide Head;
      LastOfBare(name);
    }
  }

  /** The advertised escape: "100%%" is not the text "100%", and no formatter accepts it. */
  lemma EscapeFails()
    ensures Tokens("100%%") == [Literal("100%"), Directive("", "")]
    ensures IsError("100%%")
  {
    assert Percents(2) == "%%" && Percents(1) == "%";
    assert "100" + "%%" == "100%%" && "100" + "%" == "100%";
    TrailingPercents("100", 2);
    TrailingPercentIsError("100%%");
  }

  /** A percent sign alone is in error, but a letter after it can complete it: there is no seam between them. */
  lemma ErrorNeedsSeam()
    ensures IsError("%") && !IsError("%" + "m") && !IsError("m") && !SeamHolds("%", "m")
  {
    TrailingPercentIsError("%");
    LastLiteral("m", "");
    assert "" + "m" == "m" && Tokens("m") == [Literal("m")];
    Fields();
    NoError();
    hide IsError, Known, Tokens, SeamHolds;
    GoodBare("m", "");
    assert "%" + "m" + "" == "%" + "m";
    if SeamHolds("%", "m") {
      IsErrorConcat("%", "m");
    }
  }

  lemma {:induction false} SpellableAlone(text: string)
    ensures Spellable(text, false) <==> '%' !in text
  {
    if text != "" {
      assert text == [text[0]] + text[1..];
      if Spellable(text, false) {
        SpellableTail(text, false);
        assert text[0] == '%' ==> |text| > 1 && text[1] == '%' && text[1] in text[1..];
      }
      SpellableAlone(text[1..]);
    }
  }

  /** Which texts a pattern can stand for: exactly those without a percent sign, for there is no escape. */
  lemma TextsExactly(text: string)
    requires text != ""
    ensures (exists s :: Tokens(s) == [Literal(text)]) <==> '%' !in text
  {
    var ts := [Literal(text)];
    if '%' !in text {
      LastLiteral(text, "");
      assert "" + text == text;
      assert Tokens(text) == ts;
    }
    forall s | Tokens(s) == ts ensures '%' !in text {
      UnclosedShows(Scan(s), "");
      CanonicalExactly(ts);
      assert Canonical(ts);
      SpellableAlone(text);
    }
  }
}
