/** What belongs to the name of a directive, over the alphabet written out. */
module PatternAlphabet {
  import opened Alphabets
  import opened Common
  import opened PatternConcat
  import opened PatternEscapes
  import opened PatternGrammar

  const LETTERS := LOWER_CASE + UPPER_CASE

  lemma LettersExactly(c: char)
    ensures IsLetter(c) <==> c in LETTERS
  {
    LowerExactly(c);
    UpperExactly(c);
    assert c in LETTERS <==> c in LOWER_CASE || c in UPPER_CASE;
    hide *;
    LetterIs(c);
  }

  lemma LetterIs(c: char)
    ensures IsLetter(c) <==> 'a' <= c <= 'z' || 'A' <= c <= 'Z'
  {}

  /**
   A percent sign, a letter and any other character: one of the letters, or a
   closing brace, goes on with the name; an opening brace opens a group that is not
   closed; a percent sign starts a directive without a name; and any other character
   ends the name and is text.
   */
  lemma AfterLetter(x: char, c: char)
    requires x in LETTERS
    ensures c in LETTERS || c == '}' ==> Tokens("%" + [x] + [c]) == [Directive([x, c], "")]
    ensures c == '{' ==> Tokens("%" + [x] + [c]) == [PatternError, Literal([x, c])]
    ensures c == '%' ==> Tokens("%" + [x] + [c]) == [Directive([x], ""), Directive("", "")]
    ensures c !in LETTERS && c !in "{}%" ==> Tokens("%" + [x] + [c]) == [Directive([x], ""), Literal([c])]
  {
    LettersExactly(x);
    LettersExactly(c);
    hide *;
    NameChars(x);
    LetterIs(c);
    NameChars(c);
    if c in LETTERS || c == '}' {
      LongerName(x, c);
    } else if c == '{' {
      OpenGroup(x);
    } else if c == '%' {
      PercentAfterName(x);
    } else {
      TextAfterName(x, c);
    }
  }

  lemma NameChars(c: char)
    ensures IsNameChar(c) <==> IsLetter(c) || c == '}'
  {}

  lemma LongerName(x: char, c: char)
    requires IsNameChar(x) && IsNameChar(c)
    ensures Tokens("%" + [x] + [c]) == [Directive([x, c], "")]
  {
    hide *;
    NoTokens();
    LoneDirective([x, c], "", []);
    assert "%" + [x, c] + "" == "%" + [x] + [c] && [Directive([x, c], "")] + [] == [Directive([x, c], "")];
  }

  lemma OpenGroup(x: char)
    requires IsNameChar(x)
    ensures Tokens("%" + [x] + ['{']) == [PatternError, Literal([x, '{'])]
  {
    hide *;
    LoneUnclosed([x], "", "");
    TokensAre("%" + [x] + "{" + "");
    assert "%" + [x] + "{" + "" == "%" + [x] + ['{'] && "" + ([x] + "{" + "") == [x, '{'];
  }

  lemma PercentAfterName(x: char)
    requires IsNameChar(x)
    ensures Tokens("%" + [x] + ['%']) == [Directive([x], ""), Directive("", "")]
  {
    NameChars('%');
    assert Flush("") + [Directive("", "")] == [Directive("", "")];
    hide *;
    LonePercent("");
    TokensAre("%");
    LoneDirective([x], "%", [Directive("", "")]);
    assert "%" + [x] + "%" == "%" + [x] + ['%'];
  }

  lemma TextAfterName(x: char, c: char)
    requires IsNameChar(x) && !IsNameChar(c) && c != '{' && c != '%'
    ensures Tokens("%" + [x] + [c]) == [Directive([x], ""), Literal([c])]
  {
    hide *;
    LastLiteral([c], "");
    TokensAre([c]);
    assert "" + [c] == [c];
    LoneDirective([x], [c], [Literal([c])]);
  }

  /** A directive that ends where the rest begins. */
  lemma LoneDirective(name: string, tail: string, ts: seq<Token>)
    requires forall i :: 0 <= i < |name| ==> IsNameChar(name[i])
    requires tail == "" || (!IsNameChar(tail[0]) && tail[0] != '{')
    requires name != "" && (tail == "" ==> ts == []) && (tail != "" ==> Tokens(tail) == ts)
    ensures Tokens("%" + name + tail) == [Directive(name, "")] + ts
  {
    BareHead(name, tail);
    AssembleHead("%" + name + tail, "");
    TokensAre(tail);
    TokensAre("%" + name + tail);
    NoTokens();
    hide Tokens, Scan, Assemble, Head, Rest;
    assert Flush("") + [Directive(name, "")] == [Directive(name, "")];
  }

  lemma NoTokens()
    ensures Tokens("") == []
  {}
}
