/** Printing tokens back to a pattern, and which token lists a pattern can have. */
module PatternPrinting {
  import opened Common
  import opened PatternGrammar

  /** Every percent sign of a literal is followed by another one, of the literal or of the next directive. */
  predicate Spellable(text: string, beforePercent: bool) {
    forall i :: 0 <= i < |text| && text[i] == '%' ==> PercentAfter(text, i, beforePercent)
  }

  predicate PercentAfter(text: string, i: nat, beforePercent: bool)
    requires i < |text|
  {
    if i + 1 < |text| then text[i + 1] == '%' else beforePercent
  }

  /**
   The token lists that patterns without unclosed groups have: literals are not
   empty and never adjacent, names are made of name characters, and arguments
   hold no '}'.
   */
  predicate Canonical(ts: seq<Token>) {
    if ts == [] then true
    else
      && (match ts[0]
          case Literal(text) => text != "" && Spellable(text, |ts| > 1) && (|ts| > 1 ==> ts[1].Directive?)
          case PatternError => false
          case Directive(name, arg) => (forall i :: 0 <= i < |name| ==> IsNameChar(name[i])) && '}' !in arg)
      && Canonical(ts[1..])
  }

  /** A directive without argument may drop its braces if the text after it cannot extend it. */
  predicate Separate(name: string, tail: string) {
    tail == "" || (!IsNameChar(tail[0]) && tail[0] != '{' && !(name == "" && tail[0] == '%'))
  }

  /** A directive before the text that follows it. */
  function PrintDirective(name: string, arg: string, tail: string): string {
    if arg == "" && Separate(name, tail) then "%" + name + tail else "%" + name + "{" + arg + "}" + tail
  }

  /** A token list as a pattern, without braces where they can be left out; an error token has no text of its own. */
  function Print(ts: seq<Token>): string {
    if ts == [] then ""
    else
      var tail := Print(ts[1..]);
      match ts[0]
      case Literal(text) => text + tail
      case PatternError => tail
      case Directive(name, arg) => PrintDirective(name, arg, tail)
  }

  lemma SpellableTail(text: string, beforePercent: bool)
    requires text != "" && Spellable(text, beforePercent)
    ensures Spellable(text[1..], beforePercent)
    ensures text[0] == '%' ==> PercentAfter(text, 0, beforePercent)
  {
    forall i | 0 <= i < |text| - 1 && text[1..][i] == '%'
      ensures PercentAfter(text[1..], i, beforePercent)
    {
      assert PercentAfter(text, i + 1, beforePercent);
    }
  }

  lemma {:induction false} PrintedLiteral(text: string, tail: string, beforePercent: bool, pending: string)
    requires Spellable(text, beforePercent)
    requires beforePercent ==> tail != "" && tail[0] == '%'
    ensures Assemble(Scan(text + tail), pending) == Assemble(Scan(tail), pending + text)
    decreases |text|
  {
    if text == "" {
      assert text + tail == tail && pending + text == pending;
    } else {
      var c, rest := text[0], text[1..];
      assert text == [c] + rest;
      SpellableTail(text, beforePercent);
      PercentStart(text, tail, beforePercent);
      FirstCharacter(text, tail);
      hide *;
      AssembleHead(text + tail, pending);
      PrintedLiteral(rest, tail, beforePercent, pending + [c]);
      Associates(pending, [c], rest);
    }
  }

  lemma PercentStart(text: string, tail: string, beforePercent: bool)
    requires text != "" && Spellable(text, beforePercent)
    requires beforePercent ==> tail != "" && tail[0] == '%'
    ensures text[0] == '%' ==> text[1..] + tail != "" && (text[1..] + tail)[0] == '%'
  {
    assert text[0] == '%' ==> PercentAfter(text, 0, beforePercent);
  }

  lemma FirstCharacter(text: string, tail: string)
    requires text != ""
    requires text[0] == '%' ==> text[1..] + tail != "" && (text[1..] + tail)[0] == '%'
    ensures Head(text + tail) == if text[0] == '%' then Percent else Char(text[0])
    ensures Rest(text + tail) == text[1..] + tail
  {
    var s := text + tail;
    assert s == [text[0]] + (text[1..] + tail);
    assert Head(s) == if text[0] == '%' then Percent else Char(text[0]);
    hide Head;
    CancelsLeft([text[0]], Rest(s), text[1..] + tail);
  }

  lemma {:induction false} PrintParseFrom(ts: seq<Token>, pending: string)
    requires Canonical(ts)
    requires pending != "" && ts != [] ==> ts[0].Directive?
    ensures Assemble(Scan(Print(ts)), pending) == Flush(pending) + ts
  {
    hide Head, Rest, Text;
    if ts != [] {
      var us := ts[1..];
      var tail := Print(us);
      match ts[0]
      case Literal(text) =>
        PrintStartsDirective(us);
        hide Scan, Assemble;
        PrintedLiteral(text, tail, |ts| > 1, "");
        PrintParseFrom(us, text);
        assert "" + text == text && [Literal(text)] + us == ts;
      case Directive(name, arg) =>
        hide Scan, Assemble;
        PrintParseFrom(us, "");
        assert Print(ts) == PrintDirective(name, arg, tail);
        assert [Directive(name, arg)] + us == ts;
        assert Flush("") == [] && [] + us == us;
        hide *;
        PrintedDirective(name, arg, tail);
        AssembleHead(Print(ts), pending);
        Associates(Flush(pending), [Directive(name, arg)], us);
    }
  }

  lemma PrintStartsDirective(ts: seq<Token>)
    ensures ts == [] ==> Print(ts) == ""
    ensures ts != [] && ts[0].Directive? ==> Print(ts) != "" && Print(ts)[0] == '%'
  {}

  lemma PrintedDirective(name: string, arg: string, tail: string)
    requires (forall i :: 0 <= i < |name| ==> IsNameChar(name[i])) && '}' !in arg
    ensures var s := PrintDirective(name, arg, tail);
            s != "" && Head(s).Span? && Head(s).name == name && Head(s).arg == arg && Rest(s) == tail
  {
    hide Head, Rest;
    if arg == "" && Separate(name, tail) {
      BareHead(name, tail);
    } else {
      BracedHead(name, arg, tail);
    }
  }

  /** Parsing what was printed gives back the tokens. */
  lemma PrintParse(ts: seq<Token>)
    requires Canonical(ts)
    ensures Tokens(Print(ts)) == ts
  {
    PrintParseFrom(ts, "");
  }

  lemma SpellableExtends(text: string, c: char, beforePercent: bool)
    requires Spellable(text, c == '%')
    requires c == '%' ==> beforePercent
    ensures Spellable(text + [c], beforePercent)
  {
    forall i | 0 <= i < |text| + 1 && (text + [c])[i] == '%'
      ensures PercentAfter(text + [c], i, beforePercent)
    {
      assert i < |text| ==> text[i] == '%' && PercentAfter(text, i, c == '%');
    }
  }

  lemma FlushedCanonical(pending: string, name: string, arg: string, ts: seq<Token>)
    requires Spellable(pending, true)
    requires (forall i :: 0 <= i < |name| ==> IsNameChar(name[i])) && '}' !in arg
    requires Canonical(ts)
    ensures Canonical(Flush(pending) + [Directive(name, arg)] + ts)
  {
    var us := [Directive(name, arg)] + ts;
    assert us[1..] == ts && Canonical(us);
    assert ([Literal(pending)] + us)[1..] == us;
    assert Flush(pending) + [Directive(name, arg)] + ts == if pending == "" then us else [Literal(pending)] + us;
  }

  lemma {:induction false} ScanCanonicalFrom(s: string, pending: string)
    requires Terminated(s)
    requires Spellable(pending, s != "" && s[0] == '%')
    ensures Canonical(Assemble(Scan(s), pending))
    decreases |s|
  {
    if s != "" {
      var rest := Rest(s);
      assert Scan(s) == [Head(s)] + Scan(rest);
      assert Scan(s)[0] == Head(s);
      assert Unclosed in Scan(rest) ==> Unclosed in Scan(s);
      match Head(s)
      case Char(c) =>
        SpellableExtends(pending, c, rest != "" && rest[0] == '%');
        ScanCanonicalFrom(rest, pending + [c]);
      case Percent =>
        assert s == "%" + rest && rest[0] == s[1];
        SpellableExtends(pending, '%', true);
        ScanCanonicalFrom(rest, pending + "%");
      case Span(name, arg, _) =>
        SpanParts(s);
        ScanCanonicalFrom(rest, "");
        FlushedCanonical(pending, name, arg, Assemble(Scan(rest), ""));
    }
  }

  lemma SpanParts(s: string)
    requires s != "" && Head(s).Span?
    ensures s[0] == '%'
    ensures forall i :: 0 <= i < |Head(s).name| ==> IsNameChar(Head(s).name[i])
    ensures '}' !in Head(s).arg
  {
    var _, _, _ := DirectiveHead(s);
  }

  /**
   Printing and parsing are inverse up to spelling: reprinting the tokens of a
   pattern whose groups are closed gives a pattern with the same tokens.
   */
  lemma ParsePrintParse(s: string)
    requires Terminated(s)
    ensures Canonical(Tokens(s)) && Tokens(Print(Tokens(s))) == Tokens(s)
  {
    ScanCanonicalFrom(s, "");
    PrintParse(Tokens(s));
  }

  lemma {:induction false} CanonicalHasNoErrors(ts: seq<Token>)
    requires Canonical(ts)
    ensures PatternError !in ts
  {
    if ts != [] {
      CanonicalHasNoErrors(ts[1..]);
    }
  }

  lemma {:induction false} UnclosedShows(ps: seq<Piece>, pending: string)
    ensures PatternError in Assemble(ps, pending) <==> Unclosed in ps
  {
    if ps != [] {
      match ps[0]
      case Char(c) => UnclosedShows(ps[1..], pending + [c]);
      case Percent => UnclosedShows(ps[1..], pending + "%");
      case Unclosed =>
      case Span(name, arg, _) => UnclosedShows(ps[1..], "");
    }
  }

  /** The canonical token lists are exactly those of patterns without unclosed groups. */
  lemma CanonicalExactly(ts: seq<Token>)
    ensures Canonical(ts) <==> exists s :: Terminated(s) && Tokens(s) == ts
  {
    if Canonical(ts) {
      PrintParse(ts);
      CanonicalHasNoErrors(ts);
      UnclosedShows(Scan(Print(ts)), "");
    }
    forall s | Terminated(s) && Tokens(s) == ts ensures Canonical(ts) {
      ScanCanonicalFrom(s, "");
    }
  }
}

/** When parsing distributes over concatenation. */
module PatternConcat {
  import opened Common
  import opened PatternGrammar
  import opened PatternPrinting

  /** q neither closes a group that p leaves open, nor extends p's last directive. */
  predicate SeamHolds(p: string, q: string) {
    var ps := Scan(p);
    && (Terminated(p) || '}' !in q)
    && (ps != [] && ps[|ps| - 1].Span? && !ps[|ps| - 1].braced ==> Separate(ps[|ps| - 1].name, q))
  }

  /** q does not reach into the first piece of p. */
  predicate HeadApart(p: string, q: string)
    requires p != ""
  {
    && (Head(p) == Unclosed ==> '}' !in q)
    && (Head(p).Span? && !Head(p).braced && Rest(p) == "" ==> Separate(Head(p).name, q))
  }

  /** The first piece of p is still the first piece when q follows. */
  lemma HeadStable(p: string, q: string)
    requires p != "" && HeadApart(p, q)
    ensures Head(p + q) == Head(p) && Rest(p + q) == Rest(p) + q
  {
    if p[0] == '%' && !(|p| > 1 && p[1] == '%') {
      DirectiveStable(p, q);
    } else {
      assert p + q == Text(Head(p)) + (Rest(p) + q);
    }
  }

  lemma DirectiveStable(p: string, q: string)
    requires p != "" && HeadApart(p, q)
    requires p[0] == '%' && !(|p| > 1 && p[1] == '%')
    ensures Head(p + q) == Head(p) && Rest(p + q) == Rest(p) + q
  {
    var name, arg, tail := DirectiveHead(p);
    hide Head, Rest, Text;
    if Head(p) == Span(name, "", false) {
      assert name == "" && tail != "" ==> p[1] == tail[0];
      BareHead(name, tail);
      Associates("%" + name, tail, q);
      assert tail != "" ==> (tail + q)[0] == tail[0];
      assert tail == "" ==> tail + q == q;
      BareHead(name, tail + q);
    } else if Head(p) == Unclosed {
      UnclosedHead(name, tail);
      UnclosedHead(name, tail + q);
      Associates("%" + name + "{", tail, q);
      Associates(name + "{", tail, q);
    } else {
      BracedHead(name, arg, tail);
      BracedHead(name, arg, tail + q);
      Associates("%" + name + "{" + arg + "}", tail, q);
    }
  }

  /** What the seam condition says about the first piece. */
  lemma SeamAtHead(p: string, q: string)
    requires p != "" && SeamHolds(p, q)
    ensures HeadApart(p, q)
    ensures Rest(p) != "" ==> SeamHolds(Rest(p), q)
  {
    hide Head, Rest;
    var rest := Scan(Rest(p));
    assert Scan(p) == [Head(p)] + rest;
    assert Scan(p)[0] == Head(p);
    assert Rest(p) == "" ==> rest == [];
    assert rest != [] ==> Scan(p)[|Scan(p)| - 1] == rest[|rest| - 1];
    assert Unclosed in rest ==> Unclosed in Scan(p);
  }

  lemma {:induction false} ScanConcat(p: string, q: string)
    requires SeamHolds(p, q)
    ensures Scan(p + q) == Scan(p) + Scan(q)
    decreases |p|
  {
    if p == "" {
      assert p + q == q;
    } else {
      SeamAtHead(p, q);
      HeadStable(p, q);
      var r := Rest(p);
      hide Head, Rest, SeamHolds, HeadApart;
      assert Scan(r + q) == Scan(r) + Scan(q) by {
        if r == "" {
          assert r + q == q;
        } else {
          ScanConcat(r, q);
        }
      }
      ScanCons(p);
      ScanCons(p + q);
      hide Scan;
      Associates([Head(p)], Scan(r), Scan(q));
    }
  }

  /** A first piece that q reaches into stops being one. */
  lemma HeadUnstable(p: string, q: string)
    requires p != "" && q != "" && !HeadApart(p, q)
    ensures Head(p + q) != Head(p)
  {
    var name, arg, tail := DirectiveHead(p);
    if Head(p) == Unclosed {
      Associates("%" + name + "{", tail, q);
      ClosedGroup(name, tail + q);
    } else {
      assert p == "%" + name;
      NameExtends(name, q);
    }
  }

  lemma ClosedGroup(name: string, tail: string)
    requires forall i :: 0 <= i < |name| ==> IsNameChar(name[i])
    requires '}' in tail
    ensures Head("%" + name + "{" + tail) != Unclosed
  {
    GroupStart(name, tail);
  }

  lemma NameExtends(name: string, q: string)
    requires forall i :: 0 <= i < |name| ==> IsNameChar(name[i])
    requires q != "" && !Separate(name, q)
    ensures Head("%" + name + q) != Span(name, "", false)
  {
    var s := "%" + name + q;
    assert s[1..] == name + q;
    assert forall i :: 0 <= i < |name| ==> s[1..][i] == name[i];
    assert s[1..][|name|] == q[0];
    if !IsNameChar(q[0]) {
      NameRunIs(s[1..], |name|);
    }
  }

  lemma {:induction false} ScanConcatOnly(p: string, q: string)
    requires Scan(p + q) == Scan(p) + Scan(q)
    ensures SeamHolds(p, q)
    decreases |p|
  {
    hide Head, Rest, Text;
    if p != "" && q != "" {
      var s, h := p + q, Head(p);
      assert Scan(s) == [Head(s)] + Scan(Rest(s));
      Associates([h], Scan(Rest(p)), Scan(q));
      assert Scan(s) == [h] + (Scan(Rest(p)) + Scan(q));
      assert Head(s) == Scan(s)[0] == h;
      CancelsLeft([h], Scan(Rest(s)), Scan(Rest(p)) + Scan(q));
      Associates(Text(h), Rest(p), q);
      CancelsLeft(Text(h), Rest(s), Rest(p) + q);
      ScanConcatOnly(Rest(p), q);
      SeamFromHead(p, q);
    }
  }

  /** The seam condition, from the first piece and the rest. */
  lemma SeamFromHead(p: string, q: string)
    requires p != "" && q != "" && Head(p + q) == Head(p) && SeamHolds(Rest(p), q)
    ensures SeamHolds(p, q)
  {
    if !SeamHolds(p, q) {
      var rest := Scan(Rest(p));
      assert Scan(p) == [Head(p)] + rest;
      assert rest != [] ==> Scan(p)[|Scan(p)| - 1] == rest[|rest| - 1];
      HeadUnstable(p, q);
    }
  }

  /** The pieces of p + q are those of p followed by those of q exactly when the seam holds. */
  lemma ScanConcatExactly(p: string, q: string)
    ensures Scan(p + q) == Scan(p) + Scan(q) <==> SeamHolds(p, q)
  {
    if SeamHolds(p, q) {
      ScanConcat(p, q);
    }
    if Scan(p + q) == Scan(p) + Scan(q) {
      ScanConcatOnly(p, q);
    }
  }

  predicate EndsInLiteral(ts: seq<Token>) {
    ts != [] && ts[|ts| - 1].Literal?
  }

  /** One token list after another, with literals that meet merged into one. */
  function Join(ts: seq<Token>, us: seq<Token>): seq<Token> {
    if EndsInLiteral(ts) && us != [] && us[0].Literal?
    then ts[..|ts| - 1] + [Literal(ts[|ts| - 1].text + us[0].text)] + us[1..]
    else ts + us
  }

  /** The tokens of q when the literal a is pending before it: errors of q overtake the literal. */
  function Attach(a: string, us: seq<Token>): seq<Token> {
    if a == "" then us
    else if us == [] then [Literal(a)]
    else match us[0]
      case Literal(t) => [Literal(a + t)] + us[1..]
      case Directive(_, _) => [Literal(a)] + us
      case PatternError => [PatternError] + Attach(a, us[1..])
  }

  lemma AttachFlush(a: string, b: string, us: seq<Token>)
    requires us == [] || us[0].Directive?
    ensures Attach(a, Flush(b) + us) == Flush(a + b) + us
  {
    if b == "" {
      assert a + b == a && Flush(b) + us == us;
    } else {
      var vs := [Literal(b)] + us;
      assert vs[1..] == us;
      assert a == "" ==> a + b == b;
    }
  }

  lemma {:induction false} AssemblePending(ps: seq<Piece>, a: string, b: string)
    ensures Assemble(ps, a + b) == Attach(a, Assemble(ps, b))
  {
    hide Attach, Flush;
    if ps == [] {
      AttachFlush(a, b, []);
      assert Flush(b) + [] == Flush(b) && Flush(a + b) + [] == Flush(a + b);
    } else {
      match ps[0]
      case Char(c) =>
        Associates(a, b, [c]);
        AssemblePending(ps[1..], a, b + [c]);
      case Percent =>
        Associates(a, b, "%");
        AssemblePending(ps[1..], a, b + "%");
      case Unclosed =>
        AssemblePending(ps[1..], a, b);
        AttachError(a, Assemble(ps[1..], b));
      case Span(name, arg, _) =>
        var d, tail := [Directive(name, arg)], Assemble(ps[1..], "");
        AttachFlush(a, b, d + tail);
        Associates(Flush(b), d, tail);
        Associates(Flush(a + b), d, tail);
    }
  }

  lemma AttachError(a: string, us: seq<Token>)
    ensures Attach(a, [PatternError] + us) == [PatternError] + Attach(a, us)
  {
    assert ([PatternError] + us)[1..] == us;
  }

  /** What a piece list has emitted when it ends, and the literal still pending. */
  function Emitted(ps: seq<Piece>, pending: string): (seq<Token>, string) {
    if ps == [] then ([], pending)
    else match ps[0]
      case Char(c) => Emitted(ps[1..], pending + [c])
      case Percent => Emitted(ps[1..], pending + "%")
      case Unclosed => var (ts, a) := Emitted(ps[1..], pending); ([PatternError] + ts, a)
      case Span(name, arg, _) =>
        var (ts, a) := Emitted(ps[1..], ""); (Flush(pending) + [Directive(name, arg)] + ts, a)
  }

  lemma {:induction false} AssembleConcat(ps: seq<Piece>, qs: seq<Piece>, pending: string)
    ensures var (ts, a) := Emitted(ps, pending); Assemble(ps + qs, pending) == ts + Assemble(qs, a)
  {
    if ps == [] {
      assert ps + qs == qs;
    } else {
      assert (ps + qs)[0] == ps[0] && (ps + qs)[1..] == ps[1..] + qs;
      match ps[0]
      case Char(c) => AssembleConcat(ps[1..], qs, pending + [c]);
      case Percent => AssembleConcat(ps[1..], qs, pending + "%");
      case Unclosed => AssembleConcat(ps[1..], qs, pending);
      case Span(name, arg, _) => AssembleConcat(ps[1..], qs, "");
    }
  }

  lemma {:induction false} EmittedEndsNotInLiteral(ps: seq<Piece>, pending: string)
    ensures !EndsInLiteral(Emitted(ps, pending).0)
  {
    if ps != [] {
      match ps[0]
      case Char(c) => EmittedEndsNotInLiteral(ps[1..], pending + [c]);
      case Percent => EmittedEndsNotInLiteral(ps[1..], pending + "%");
      case Unclosed => EmittedEndsNotInLiteral(ps[1..], pending);
      case Span(name, arg, _) => EmittedEndsNotInLiteral(ps[1..], "");
    }
  }

  lemma JoinIsAttach(ts: seq<Token>, a: string, us: seq<Token>)
    requires !EndsInLiteral(ts)
    ensures Join(ts + Flush(a), us) == ts + Attach(a, us) <==> !(a != "" && us != [] && us[0].PatternError?)
  {
    if a == "" {
      assert ts + Flush(a) == ts;
    } else {
      JoinLast(ts, a, us);
      hide Join, Attach, EndsInLiteral;
      if us != [] && us[0].PatternError? {
        AttachError(a, us[1..]);
        assert us == [PatternError] + us[1..];
        assert (ts + [Literal(a)] + us)[|ts|] == Literal(a);
        assert (ts + Attach(a, us))[|ts|] == PatternError;
      }
    }
  }

  /** What follows a last literal, unless it is an error, joins it as it would join a pending one. */
  lemma JoinLast(ts: seq<Token>, a: string, us: seq<Token>)
    requires a != ""
    ensures us != [] && us[0].PatternError? ==> Join(ts + [Literal(a)], us) == ts + [Literal(a)] + us
    ensures us == [] || !us[0].PatternError? ==> Join(ts + [Literal(a)], us) == ts + Attach(a, us)
  {
    var vs := ts + [Literal(a)];
    assert vs[|vs| - 1] == Literal(a) && vs[..|vs| - 1] == ts;
    if us != [] && us[0].Literal? {
      Associates(ts, [Literal(a + us[0].text)], us[1..]);
    } else {
      Associates(ts, [Literal(a)], us);
    }
  }

  /** The tokens of p + q: what p has emitted, then those of q after p's pending literal. */
  lemma TokensConcat(p: string, q: string)
    requires SeamHolds(p, q)
    ensures var (ts, a) := Emitted(Scan(p), "");
            !EndsInLiteral(ts) && Tokens(p) == ts + Flush(a) && Tokens(p + q) == ts + Attach(a, Tokens(q))
  {
    ScanConcat(p, q);
    var (ts, a) := Emitted(Scan(p), "");
    AssembleConcat(Scan(p), Scan(q), "");
    AssembleConcat(Scan(p), [], "");
    assert Scan(p) + [] == Scan(p);
    EmittedEndsNotInLiteral(Scan(p), "");
    AssemblePending(Scan(q), a, "");
    assert a + "" == a;
  }

  /** An error token at the start of q overtakes a literal at the end of p. */
  predicate Overtakes(ts: seq<Token>, us: seq<Token>) {
    EndsInLiteral(ts) && us != [] && us[0].PatternError?
  }

  /** At a seam, the tokens of p + q are those of p and then of q exactly if no error overtakes a literal. */
  lemma TokensAtSeam(p: string, q: string)
    requires SeamHolds(p, q)
    ensures Tokens(p + q) == Join(Tokens(p), Tokens(q)) <==> !Overtakes(Tokens(p), Tokens(q))
  {
    hide Scan, SeamHolds;
    TokensConcat(p, q);
    var (ts, a) := Emitted(Scan(p), "");
    JoinIsAttach(ts, a, Tokens(q));
    if a == "" {
      assert ts + Flush(a) == ts;
    } else {
      assert Tokens(p)[|Tokens(p)| - 1] == Literal(a);
    }
  }

  /** Where the seam condition fails: the piece at the start of r is the one that q reaches into. */
  lemma {:induction false} SeamFailure(p: string, q: string) returns (ps: seq<Piece>, r: string)
    requires !SeamHolds(p, q)
    ensures q != "" && r != "" && !HeadApart(r, q)
    ensures Scan(p) == ps + Scan(r) && Scan(p + q) == ps + Scan(r + q)
    decreases |p|
  {
    if !HeadApart(p, q) {
      ps, r := [], p;
    } else {
      HeadStable(p, q);
      if SeamHolds(Rest(p), q) {
        SeamFromHead(p, q);
      }
      ps, r := SeamFailure(Rest(p), q);
      hide *;
      ScanCons(p);
      ScanCons(p + q);
      Associates([Head(p)], ps, Scan(r));
      Associates([Head(p)], ps, Scan(r + q));
      ps := [Head(p)] + ps;
    }
  }

  lemma JoinAfter(ts: seq<Token>, x: seq<Token>, us: seq<Token>)
    requires x != []
    ensures Join(ts + x, us) == ts + Join(x, us)
  {
    var last, front := x[|x| - 1], x[..|x| - 1];
    assert (ts + x)[|ts + x| - 1] == last;
    if last.Literal? && us != [] && us[0].Literal? {
      assert (ts + x)[..|ts + x| - 1] == ts + front;
      var lit := [Literal(last.text + us[0].text)];
      Associates(ts, front, lit);
      Associates(ts, front + lit, us[1..]);
    } else {
      Associates(ts, x, us);
    }
  }

  /** A group that q closes: its error token, the first one of r, is not there any more. */
  lemma ClosedApart(r: string, q: string, a: string, us: seq<Token>)
    requires r != "" && Head(r) == Unclosed && '}' in q
    ensures Assemble(Scan(r), a) != []
    ensures Assemble(Scan(r + q), a) != Join(Assemble(Scan(r), a), us)
  {
    GroupCloses(r, q);
    hide Head, Rest, Scan, Join, Assemble;
    AssembleHead(r, a);
    AssembleHead(r + q, a);
    JoinKeepsError(Assemble(Scan(r), a), us);
  }

  lemma JoinKeepsError(ts: seq<Token>, us: seq<Token>)
    requires ts != [] && ts[0] == PatternError
    ensures Join(ts, us) != [] && Join(ts, us)[0] == PatternError
  {}

  lemma GroupCloses(r: string, q: string)
    requires r != "" && Head(r) == Unclosed && '}' in q
    ensures Head(r + q).Span?
  {
    HeadUnstable(r, q);
    assert (r + q)[0] == '%' && (r + q)[1] == r[1];
    var _, _, _ := DirectiveHead(r + q);
  }

  /** A last directive that q extends or gives a group. */
  lemma ExtendedApart(r: string, q: string, a: string)
    requires r != "" && q != "" && Head(r).Span? && !Head(r).braced && Rest(r) == ""
    requires !Separate(Head(r).name, q)
    ensures Assemble(Scan(r), a) != []
    ensures Assemble(Scan(r + q), a) != Join(Assemble(Scan(r), a), Tokens(q))
  {
    var name, us := Head(r).name, Tokens(q);
    BareApart(r, q);
    assert Scan("") == [];
    hide Head, Rest, Scan, Separate;
    AssembleHead(r, a);
    AssembleHead(r + q, a);
    var x := Flush(a) + [Directive(name, "")];
    assert Assemble(Scan(r), a) == x;
    assert Join(x, us) == x + us;
    if Head(r + q).Percent? {
      PatternAccounts(q);
      AssembleAccounts(Scan(q), a + "%");
      TokenCounts(Flush(a), [Directive(name, "")]);
      TokenCounts(x, us);
      assert |DirectiveTokens(x)| > 0;
    } else if Head(r + q).Unclosed? {
      assert (x + us)[0] == x[0] != PatternError;
    } else if Assemble(Scan(r + q), a) == x + us {
      var y, rest := Flush(a) + [Directive(Head(r + q).name, Head(r + q).arg)], Rest(r + q);
      assert (x + us)[|x| - 1] == (y + Tokens(rest))[|x| - 1];
      assert x == y;
      CancelsLeft(x, us, Tokens(rest));
      EmptyGroup(name, q, rest);
    }
  }

  /** What a bare directive that ends r becomes when q extends it. */
  lemma BareApart(r: string, q: string)
    requires r != "" && q != "" && Head(r).Span? && !Head(r).braced && Rest(r) == ""
    requires !Separate(Head(r).name, q)
    ensures Head(r).arg == "" && Head(r + q) != Head(r) && !Head(r + q).Char?
    ensures Head(r + q).Percent? ==> Rest(r + q) == q
    ensures Head(r + q) == Span(Head(r).name, "", true) ==> q == "{}" + Rest(r + q)
  {
    HeadUnstable(r, q);
    var name, _, _ := DirectiveHead(r);
    assert r == "%" + name;
    hide Separate;
    var rest := Rest(r + q);
    assert r + q == Text(Head(r + q)) + rest;
    if Head(r + q) == Span(name, "", true) {
      hide Head, Rest;
      assert Text(Span(name, "", true)) == r + "{}";
      Associates(r, "{}", rest);
      CancelsLeft(r, q, "{}" + rest);
    } else if Head(r + q).Percent? {
      assert |r| == 1;
    }
  }

  /** A pair of braces is text, so it shows in the tokens. */
  lemma EmptyGroup(name: string, q: string, rest: string)
    requires q == "{}" + rest
    ensures Tokens(q) != Tokens(rest)
  {
    ScanPlain("{}", rest);
    PatternAccounts(q);
    PatternAccounts(rest);
    hide Scan, Tokens;
    assert Scan(q) == [Char('{')] + ([Char('}')] + Scan(rest));
    assert ([Char('{')] + ([Char('}')] + Scan(rest)))[1..][1..] == Scan(rest);
  }

  /** Where the seam condition fails, the tokens of p + q are never those of p and then of q. */
  lemma TokensApart(p: string, q: string)
    requires !SeamHolds(p, q)
    ensures Tokens(p + q) != Join(Tokens(p), Tokens(q))
  {
    var ps, r := SeamFailure(p, q);
    hide SeamHolds, Scan, Assemble, Join;
    var (ts, a) := Emitted(ps, "");
    AssembleConcat(ps, Scan(r), "");
    AssembleConcat(ps, Scan(r + q), "");
    var x, y := Assemble(Scan(r), a), Assemble(Scan(r + q), a);
    if Head(r) == Unclosed {
      ClosedApart(r, q, a, Tokens(q));
    } else {
      ExtendedApart(r, q, a);
    }
    JoinAfter(ts, x, Tokens(q));
    if Tokens(p + q) == Join(Tokens(p), Tokens(q)) {
      CancelsLeft(ts, y, Join(x, Tokens(q)));
    }
  }

  /**
   Pattern concatenation, for every two patterns: the tokens of p + q are those of
   p followed by those of q, with literals that meet merged, exactly if the seam
   holds and it is not that p ends in a literal while q's first token is an error,
   which then overtakes the literal.
   */
  lemma TokensConcatExactly(p: string, q: string)
    ensures Tokens(p + q) == Join(Tokens(p), Tokens(q)) <==> SeamHolds(p, q) && !Overtakes(Tokens(p), Tokens(q))
  {
    hide SeamHolds, Tokens;
    if SeamHolds(p, q) {
      TokensAtSeam(p, q);
    } else {
      TokensApart(p, q);
    }
  }

  /** A plain literal at the end of a pattern. */
  lemma LastLiteral(text: string, pending: string)
    requires '%' !in text && pending + text != ""
    ensures Assemble(Scan(text), pending) == [Literal(pending + text)]
  {
    assert text + "" == text;
    PrintedLiteral(text, "", false, pending);
    assert Scan("") == [];
  }

  /** The tokens of one unclosed group after a pending literal: the error token comes first. */
  lemma LoneUnclosed(name: string, tail: string, pending: string)
    requires forall i :: 0 <= i < |name| ==> IsNameChar(name[i])
    requires '}' !in tail && '%' !in tail
    ensures Assemble(Scan("%" + name + "{" + tail), pending) ==
            [PatternError] + [Literal(pending + (name + "{" + tail))]
  {
    hide Scan, Head, Rest, Assemble;
    UnclosedHead(name, tail);
    AssembleHead("%" + name + "{" + tail, pending);
    LastLiteral(name + "{" + tail, pending);
  }

  /**
   The overtaking error, for every plain literal p followed by an unclosed group
   q: the seam condition holds, and yet the error token comes first and the two
   texts run together behind it.
   */
  lemma ErrorOvertakesLiteral(p: string, name: string, tail: string)
    requires p != "" && '%' !in p
    requires forall i :: 0 <= i < |name| ==> IsNameChar(name[i])
    requires '}' !in tail && '%' !in tail
    ensures var q := "%" + name + "{" + tail;
            && SeamHolds(p, q)
            && Tokens(p) == [Literal(p)]
            && Tokens(q) == [PatternError] + [Literal(name + "{" + tail)]
            && Tokens(p + q) == [PatternError] + [Literal(p + (name + "{" + tail))]
  {
    var q := "%" + name + "{" + tail;
    SpellablePlain(p);
    hide *;
    PlainSeam(p, q);
    LastLiteral(p, "");
    LoneUnclosed(name, tail, "");
    LoneUnclosed(name, tail, p);
    PrintedLiteral(p, q, false, "");
    NothingPending(p);
    NothingPending(name + "{" + tail);
    TokensAre(p);
    TokensAre(q);
    TokensAre(p + q);
  }

  lemma NothingPending(text: string)
    ensures "" + text == text
  {}

  lemma TokensAre(s: string)
    ensures Tokens(s) == Assemble(Scan(s), "")
  {}

  lemma SpellablePlain(text: string)
    requires '%' !in text
    ensures Spellable(text, false)
  {}

  lemma PlainSeam(p: string, q: string)
    requires '%' !in p
    ensures SeamHolds(p, q)
  {
    ScanPlain(p, "");
    assert p + "" == p && Scan("") == [];
    assert Scan(p) == Chars(p) + [] == Chars(p);
  }

  /** One such pair of patterns: "ab" and "%d{x". */
  lemma ConcatFails()
    ensures SeamHolds("ab", "%d{x") && Tokens("ab" + "%d{x") != Join(Tokens("ab"), Tokens("%d{x"))
  {
    ErrorOvertakesLiteral("ab", "d", "x");
    hide Scan, SeamHolds, Tokens;
    assert "%" + "d" + "{" + "x" == "%d{x";
    assert Join(Tokens("ab"), Tokens("%d{x"))[0] == Literal("ab");
  }
}

/** How many characters the inner loop of the parser looks at. */
module PatternCost {
  import opened PatternGrammar

  /** Inner-loop iterations spent on a piece that starts m characters before the end of the pattern. */
  function PieceCost(p: Piece, m: nat): nat {
    match p
    case Char(_) => 0
    case Percent => 0
    case Unclosed => if m == 0 then 0 else m - 1
    case Span(name, arg, braced) =>
      if braced then |name| + |arg| + 2 else if 1 + |name| < m then |name| + 1 else |name|
  }

  function Cost(s: string): nat
    decreases |s|
  {
    if s == "" then 0 else PieceCost(Head(s), |s|) + Cost(Rest(s))
  }

  lemma {:induction false} CostLinear(s: string)
    requires Terminated(s)
    ensures Cost(s) <= |s|
    decreases |s|
  {
    hide Head, Rest, Text, PieceCost;
    if s != "" {
      ScanCons(s);
      assert Scan(s)[0] == Head(s);
      PieceCostBound(s);
      assert |s| == |Text(Head(s))| + |Rest(s)|;
      CostLinear(Rest(s));
    }
  }

  /** 0 + 1 + ... + (n - 1) */
  function Triangle(n: nat): nat {
    if n == 0 then 0 else n - 1 + Triangle(n - 1)
  }

  lemma {:induction false} TriangleGrows(m: nat, n: nat)
    requires m <= n
    ensures Triangle(m) <= Triangle(n)
  {
    if m < n {
      TriangleGrows(m, n - 1);
    }
  }

  lemma {:induction false} TriangleIs(n: nat)
    ensures 2 * Triangle(n) == n * (n - 1)
  {
    if n > 0 {
      TriangleIs(n - 1);
    }
  }

  lemma PieceCostBound(s: string)
    requires s != ""
    ensures PieceCost(Head(s), |s|) <= |s| - 1
    ensures Head(s) != Unclosed ==> PieceCost(Head(s), |s|) <= |Text(Head(s))|
  {
    assert |s| == |Text(Head(s))| + |Rest(s)|;
    hide Head, Rest;
  }

  lemma {:induction false} CostQuadratic(s: string)
    ensures Cost(s) <= Triangle(|s|)
    decreases |s|
  {
    hide Head, Rest, Text, PieceCost;
    if s != "" {
      PieceCostBound(s);
      CostQuadratic(Rest(s));
      TriangleGrows(|Rest(s)|, |s| - 1);
    }
  }

  /** The scan is linear when every group closes, and quadratic at worst. */
  lemma ScanCost(s: string)
    ensures Terminated(s) ==> Cost(s) <= |s|
    ensures 2 * Cost(s) <= |s| * (|s| - 1)
  {
    hide *;
    if Terminated(s) {
      CostLinear(s);
    }
    CostQuadratic(s);
    TriangleIs(|s|);
  }
}
